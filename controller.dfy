/** One step of the controller's main loop: decide from the game control row
    and the wall clock whether a new tick begins, create that tick's flags,
    and say how long to sleep. Instants and durations are whole seconds; the
    clock is read once per step and passed in as `now`. */
module Controller {
  import opened GameTables

  /** How long the loop idles while the game is not configured, has not
      started, or is over. */
  const PollInterval := 60

  /** What one step decides: advance to the next tick (and sleep 0), or
      leave the tables alone and sleep the given durations in order. */
  datatype Decision = Advance | Idle(sleeps: seq<int>)

  /** The step divides by the tick length, so a configured one must be
      positive. */
  predicate PositiveTickLength(control: Option<GameControl>) {
    control.Some? ==> control.value.tickDuration > 0
  }

  predicate Configured(control: Option<GameControl>) {
    control.Some? && control.value.start.Some? && control.value.end.Some?
  }

  /** The tick the wall clock implies: whole tick lengths since the start. */
  function TargetTick(c: GameControl, now: int): (target: int)
    requires c.start.Some? && c.tickDuration > 0
    ensures target * c.tickDuration <= now - c.start.value < (target + 1) * c.tickDuration
  {
    (now - c.start.value) / c.tickDuration
  }

  /** The decision rules of a step, in the order they apply. */
  function Decide(control: Option<GameControl>, nonstop: bool, now: int): (d: Decision)
    requires PositiveTickLength(control)
    ensures !Configured(control) ==> d == Idle([PollInterval])
    ensures d.Advance? ==>
      (&& Configured(control)
       && control.value.start.value <= now
       && (nonstop || now < control.value.end.value)
       && control.value.currentTick < TargetTick(control.value, now))
    ensures d.Idle? ==> 1 <= |d.sleeps| <= 2
  {
    if !Configured(control) then Idle([PollInterval])
    else
      var c := control.value;
      if now < c.start.value then Idle([PollInterval])
      else if !nonstop && now >= c.end.value then Idle([0, PollInterval])
      else if c.currentTick < TargetTick(c, now) then Advance
      else Idle([(c.currentTick + 1) * c.tickDuration - (now - c.start.value)])
  }

  // ---------------------------------------------------------------------------
  // Properties of the decision

  /** Inside the window (or nonstop) and behind the clock, the step advances. */
  lemma AdvancesExactlyWhenBehind(c: GameControl, nonstop: bool, now: int)
    requires c.tickDuration > 0 && c.start.Some? && c.end.Some?
    requires c.start.value <= now && (nonstop || now < c.end.value)
    ensures Decide(Some(c), nonstop, now).Advance? <==> c.currentTick < TargetTick(c, now)
  {
  }

  /** Not behind the clock: sleep exactly until the next tick boundary, which
      is in the future and, when the tick matches the clock, at most one tick
      length away. */
  lemma {:induction false} SleepsUntilNextBoundary(c: GameControl, nonstop: bool, now: int)
    requires c.tickDuration > 0 && c.start.Some? && c.end.Some?
    requires c.start.value <= now && (nonstop || now < c.end.value)
    requires c.currentTick >= TargetTick(c, now)
    ensures Decide(Some(c), nonstop, now).Idle?
    ensures var sleeps := Decide(Some(c), nonstop, now).sleeps;
      && |sleeps| == 1
      && now + sleeps[0] == c.start.value + (c.currentTick + 1) * c.tickDuration
      && 0 < sleeps[0]
      && (c.currentTick == TargetTick(c, now) ==> sleeps[0] <= c.tickDuration)
  {
    var d, elapsed := c.tickDuration, now - c.start.value;
    var q := elapsed / d;
    assert elapsed == q * d + elapsed % d;
    assert (q + 1) * d == q * d + d;
    assert (c.currentTick + 1) * d >= (q + 1) * d by {
      MulMonotone(q + 1, c.currentTick + 1, d);
    }
  }

  lemma MulMonotone(a: int, b: int, d: int)
    requires a <= b && d > 0
    ensures a * d <= b * d
  {
  }

  /** Once the window has closed and the game is not nonstop, no step ever
      advances: it sleeps 0 and then the poll interval. */
  lemma ClosedWindowIdles(c: GameControl, now: int)
    requires c.tickDuration > 0 && c.start.Some? && c.end.Some?
    requires c.start.value <= now && now >= c.end.value
    ensures Decide(Some(c), false, now) == Idle([0, PollInterval])
  {
  }

  /** The control row after one step. */
  function StepControl(c: GameControl, nonstop: bool, now: int): (r: GameControl)
    requires c.tickDuration > 0
    ensures r.tickDuration == c.tickDuration
  {
    if Decide(Some(c), nonstop, now).Advance? then c.(currentTick := c.currentTick + 1) else c
  }

  /** The control row after `k` steps at the same clock reading, as when the
      loop sleeps 0 between steps. */
  function RunSteps(c: GameControl, nonstop: bool, now: int, k: nat): (r: GameControl)
    requires c.tickDuration > 0
    ensures r.tickDuration == c.tickDuration
    decreases k
  {
    if k == 0 then c else RunSteps(StepControl(c, nonstop, now), nonstop, now, k - 1)
  }

  /** Catch-up after downtime: `k` steps that each sleep 0 advance the tick by
      exactly `k`, one tick per step, as long as the clock is at least `k`
      ticks ahead. */
  lemma {:induction false} CatchUpOneTickPerStep(c: GameControl, nonstop: bool, now: int, k: nat)
    requires c.tickDuration > 0 && c.start.Some? && c.end.Some?
    requires c.start.value <= now && (nonstop || now < c.end.value)
    requires c.currentTick + k <= TargetTick(c, now)
    ensures RunSteps(c, nonstop, now, k) == c.(currentTick := c.currentTick + k)
    decreases k
  {
    if k > 0 {
      var next := c.(currentTick := c.currentTick + 1);
      assert StepControl(c, nonstop, now) == next;
      CatchUpOneTickPerStep(next, nonstop, now, k - 1);
    }
  }

  /** After catching up, the tick matches the clock and the next step sleeps
      until the next boundary instead of advancing again. */
  lemma CatchUpSettles(c: GameControl, nonstop: bool, now: int)
    requires c.tickDuration > 0 && c.start.Some? && c.end.Some?
    requires c.start.value <= now && (nonstop || now < c.end.value)
    requires c.currentTick <= TargetTick(c, now)
    ensures var settled := RunSteps(c, nonstop, now, TargetTick(c, now) - c.currentTick);
      && settled.currentTick == TargetTick(c, now)
      && Decide(Some(settled), nonstop, now).Idle?
      && 0 < Decide(Some(settled), nonstop, now).sleeps[0] <= c.tickDuration
  {
    var k := TargetTick(c, now) - c.currentTick;
    CatchUpOneTickPerStep(c, nonstop, now, k);
    SleepsUntilNextBoundary(c.(currentTick := c.currentTick + k), nonstop, now);
  }

  // ---------------------------------------------------------------------------
  // Fan-out of a new tick's flags

  /** One unclaimed flag per team for service `s`, with ids from `firstId`. */
  function TeamFlags(s: Service, teams: seq<Team>, tick: int, firstId: int): (r: seq<Flag>) {
    if teams == [] then []
    else [Flag(firstId, s.id, teams[0].userId, tick, None, None)] + TeamFlags(s, teams[1..], tick, firstId + 1)
  }

  /** The flags of a new tick: one per (service, team) pair, service by
      service, with consecutive ids from `firstId`. */
  function TickFlags(services: seq<Service>, teams: seq<Team>, tick: int, firstId: int): (r: seq<Flag>) {
    if services == [] then []
    else TeamFlags(services[0], teams, tick, firstId) + TickFlags(services[1..], teams, tick, firstId + |teams|)
  }

  /** Row `k` of a service's new flags belongs to the `k`-th team, carries
      id `firstId + k` and is neither claimed nor closed. */
  lemma {:induction false} TeamFlagsRows(s: Service, teams: seq<Team>, tick: int, firstId: int)
    ensures |TeamFlags(s, teams, tick, firstId)| == |teams|
    ensures forall k :: 0 <= k < |teams| ==>
      TeamFlags(s, teams, tick, firstId)[k] == Flag(firstId + k, s.id, teams[k].userId, tick, None, None)
  {
    if teams != [] {
      TeamFlagsRows(s, teams[1..], tick, firstId + 1);
      var r := TeamFlags(s, teams, tick, firstId);
      forall k | 1 <= k < |teams| ensures r[k] == Flag(firstId + k, s.id, teams[k].userId, tick, None, None) {
        assert r[k] == TeamFlags(s, teams[1..], tick, firstId + 1)[k - 1];
        assert teams[1..][k - 1] == teams[k];
      }
    }
  }

  /** A new tick has services × teams flags, all at that tick, none claimed
      or closed, with consecutive ids from `firstId`. */
  lemma {:induction false} TickFlagsRows(services: seq<Service>, teams: seq<Team>, tick: int, firstId: int)
    ensures |TickFlags(services, teams, tick, firstId)| == |services| * |teams|
    ensures forall k :: 0 <= k < |TickFlags(services, teams, tick, firstId)| ==>
      var f := TickFlags(services, teams, tick, firstId)[k];
      f.id == firstId + k && f.tick == tick && f.placementStart.None? && f.placementEnd.None?
  {
    if services != [] {
      var head := TeamFlags(services[0], teams, tick, firstId);
      var rest := TickFlags(services[1..], teams, tick, firstId + |teams|);
      TeamFlagsRows(services[0], teams, tick, firstId);
      TickFlagsRows(services[1..], teams, tick, firstId + |teams|);
      assert |services| * |teams| == |teams| + |services[1..]| * |teams|;
      forall k | |head| <= k < |head| + |rest| ensures (head + rest)[k] == rest[k - |head|] {}
    }
  }

  /** With distinct ids, a service id is either the first one or one of the
      rest, never both. */
  lemma HasServiceSplit(services: seq<Service>, serviceId: int)
    requires services != [] && DistinctServiceIds(services)
    ensures DistinctServiceIds(services[1..])
    ensures services[0].id == serviceId ==> HasService(services, serviceId) && !HasService(services[1..], serviceId)
    ensures services[0].id != serviceId ==> HasService(services, serviceId) == HasService(services[1..], serviceId)
  {
    var rest := services[1..];
    forall i, j | 0 <= i < j < |rest| ensures rest[i].id != rest[j].id {
      assert rest[i] == services[i + 1] && rest[j] == services[j + 1];
    }
    if HasService(rest, serviceId) {
      var i :| 0 <= i < |rest| && rest[i].id == serviceId;
      assert services[i + 1].id == serviceId;
    }
    if services[0].id != serviceId && HasService(services, serviceId) {
      var i :| 0 <= i < |services| && services[i].id == serviceId;
      assert rest[i - 1].id == serviceId;
    }
  }

  lemma {:induction false} TeamFlagsPerTeam(s: Service, teams: seq<Team>, tick: int, firstId: int, teamId: int)
    requires DistinctTeamIds(teams)
    ensures Count(TeamFlags(s, teams, tick, firstId), OfTeam(teamId)) == if HasTeam(teams, teamId) then 1 else 0
  {
    var r := TeamFlags(s, teams, tick, firstId);
    TeamFlagsRows(s, teams, tick, firstId);
    if HasTeam(teams, teamId) {
      var j :| 0 <= j < |teams| && teams[j].userId == teamId;
      var before, after := r[..j], r[j + 1..];
      forall i | 0 <= i < |before| ensures !OfTeam(teamId)(before[i]) {
        assert before[i] == r[i];
      }
      forall i | 0 <= i < |after| ensures !OfTeam(teamId)(after[i]) {
        assert after[i] == r[j + 1 + i];
      }
      assert r == before + [r[j]] + after;
      CountSingleHit(before, r[j], after, OfTeam(teamId));
    } else {
      forall i | 0 <= i < |r| ensures !OfTeam(teamId)(r[i]) {
        assert r[i].protectingTeamId == teams[i].userId;
      }
      CountNone(r, OfTeam(teamId));
    }
  }

  lemma {:induction false} TeamFlagsPerPair(s: Service, teams: seq<Team>, tick: int, firstId: int,
                                            serviceId: int, teamId: int)
    requires DistinctTeamIds(teams)
    ensures Count(TeamFlags(s, teams, tick, firstId), OfPair(serviceId, teamId)) ==
      if s.id == serviceId && HasTeam(teams, teamId) then 1 else 0
  {
    var r := TeamFlags(s, teams, tick, firstId);
    TeamFlagsRows(s, teams, tick, firstId);
    if s.id == serviceId {
      TeamFlagsPerTeam(s, teams, tick, firstId, teamId);
      forall i | 0 <= i < |r| ensures OfPair(serviceId, teamId)(r[i]) == OfTeam(teamId)(r[i]) {}
      CountSamePredicate(r, OfPair(serviceId, teamId), OfTeam(teamId));
    } else {
      CountNone(r, OfPair(serviceId, teamId));
    }
  }

  /** Two predicates that agree on every row count alike. */
  lemma {:induction false} CountSamePredicate(flags: seq<Flag>, p: Flag -> bool, q: Flag -> bool)
    requires forall i :: 0 <= i < |flags| ==> p(flags[i]) == q(flags[i])
    ensures Count(flags, p) == Count(flags, q)
  {
    if flags != [] {
      CountSamePredicate(flags[..|flags| - 1], p, q);
    }
  }

  /** Counting a tick's flags splits into the first service's flags and the
      rest's. */
  lemma CountTickFlagsSplit(services: seq<Service>, teams: seq<Team>, tick: int, firstId: int, p: Flag -> bool)
    requires services != []
    ensures Count(TickFlags(services, teams, tick, firstId), p) ==
      Count(TeamFlags(services[0], teams, tick, firstId), p) +
      Count(TickFlags(services[1..], teams, tick, firstId + |teams|), p)
  {
    CountAppend(TeamFlags(services[0], teams, tick, firstId), TickFlags(services[1..], teams, tick, firstId + |teams|), p);
  }

  /** A service's new flags all belong to that service. */
  lemma TeamFlagsPerService(s: Service, teams: seq<Team>, tick: int, firstId: int, serviceId: int)
    ensures Count(TeamFlags(s, teams, tick, firstId), OfService(serviceId)) == if s.id == serviceId then |teams| else 0
  {
    TeamFlagsRows(s, teams, tick, firstId);
    if s.id == serviceId {
      CountAll(TeamFlags(s, teams, tick, firstId), OfService(serviceId));
    } else {
      CountNone(TeamFlags(s, teams, tick, firstId), OfService(serviceId));
    }
  }

  /** Each service gets one flag per team. */
  lemma {:induction false} TickFlagsPerService(services: seq<Service>, teams: seq<Team>, tick: int, firstId: int,
                                               serviceId: int)
    requires DistinctServiceIds(services)
    ensures Count(TickFlags(services, teams, tick, firstId), OfService(serviceId)) ==
      if HasService(services, serviceId) then |teams| else 0
  {
    if services != [] {
      HasServiceSplit(services, serviceId);
      CountTickFlagsSplit(services, teams, tick, firstId, OfService(serviceId));
      TickFlagsPerService(services[1..], teams, tick, firstId + |teams|, serviceId);
      TeamFlagsPerService(services[0], teams, tick, firstId, serviceId);
    }
  }

  /** Each team gets one flag per service. */
  lemma {:induction false} TickFlagsPerTeam(services: seq<Service>, teams: seq<Team>, tick: int, firstId: int,
                                            teamId: int)
    requires DistinctTeamIds(teams)
    ensures Count(TickFlags(services, teams, tick, firstId), OfTeam(teamId)) ==
      if HasTeam(teams, teamId) then |services| else 0
  {
    if services != [] {
      CountTickFlagsSplit(services, teams, tick, firstId, OfTeam(teamId));
      TickFlagsPerTeam(services[1..], teams, tick, firstId + |teams|, teamId);
      TeamFlagsPerTeam(services[0], teams, tick, firstId, teamId);
    }
  }

  /** Exactly one flag for every (service, team) pair, and none for any other
      pair. */
  lemma {:induction false} TickFlagsPerPair(services: seq<Service>, teams: seq<Team>, tick: int, firstId: int,
                                            serviceId: int, teamId: int)
    requires DistinctServiceIds(services) && DistinctTeamIds(teams)
    ensures Count(TickFlags(services, teams, tick, firstId), OfPair(serviceId, teamId)) ==
      if HasService(services, serviceId) && HasTeam(teams, teamId) then 1 else 0
  {
    if services != [] {
      HasServiceSplit(services, serviceId);
      CountTickFlagsSplit(services, teams, tick, firstId, OfPair(serviceId, teamId));
      TickFlagsPerPair(services[1..], teams, tick, firstId + |teams|, serviceId, teamId);
      TeamFlagsPerPair(services[0], teams, tick, firstId, serviceId, teamId);
    }
  }

  /** All of a new tick's flags carry that tick. */
  lemma TickFlagsPerTick(services: seq<Service>, teams: seq<Team>, tick: int, firstId: int, t: int)
    ensures Count(TickFlags(services, teams, tick, firstId), AtTick(t)) ==
      if t == tick then |services| * |teams| else 0
  {
    var r := TickFlags(services, teams, tick, firstId);
    TickFlagsRows(services, teams, tick, firstId);
    if t == tick { CountAll(r, AtTick(t)); } else { CountNone(r, AtTick(t)); }
  }

  /** A new tick gives each configured service one flag per team at that
      tick, and no (service, tick) anything else. */
  lemma TickFlagsPerServiceAtTick(services: seq<Service>, teams: seq<Team>, tick: int, firstId: int,
                                  serviceId: int, t: int)
    requires DistinctServiceIds(services)
    ensures Count(TickFlags(services, teams, tick, firstId), OfServiceAtTick(serviceId, t)) ==
      if t == tick && HasService(services, serviceId) then |teams| else 0
  {
    var r := TickFlags(services, teams, tick, firstId);
    TickFlagsRows(services, teams, tick, firstId);
    if t == tick {
      forall i | 0 <= i < |r| ensures OfServiceAtTick(serviceId, t)(r[i]) == OfService(serviceId)(r[i]) {}
      CountSamePredicate(r, OfServiceAtTick(serviceId, t), OfService(serviceId));
      TickFlagsPerService(services, teams, tick, firstId, serviceId);
    } else {
      CountNone(r, OfServiceAtTick(serviceId, t));
    }
  }

  /** Appending a tick's flags with ids from the sequence keeps flag ids
      unique and below the advanced sequence. */
  lemma AppendKeepsIdsUnique(flags: seq<Flag>, minted: seq<Flag>, nextId: int)
    requires FlagIdsBelow(flags, nextId) && FlagIdsUnique(flags)
    requires forall k :: 0 <= k < |minted| ==> minted[k].id == nextId + k
    ensures FlagIdsBelow(flags + minted, nextId + |minted|) && FlagIdsUnique(flags + minted)
  {
    var all := flags + minted;
    forall i | 0 <= i < |all| ensures all[i].id < nextId + |minted| {
      if i >= |flags| { assert all[i] == minted[i - |flags|]; }
    }
    forall i, j | 0 <= i < j < |all| ensures all[i].id != all[j].id {
      if j >= |flags| {
        assert all[j] == minted[j - |flags|];
        if i >= |flags| { assert all[i] == minted[i - |flags|]; }
      }
    }
  }

  /** Advancing from `tick` to `tick + 1` and appending that tick's flags
      keeps every reached tick fanned out. */
  lemma AppendKeepsFanOut(flags: seq<Flag>, services: seq<Service>, teams: seq<Team>, tick: int, nextId: int)
    requires tick >= -1 && FannedOut(flags, tick, |services| * |teams|)
    ensures FannedOut(flags + TickFlags(services, teams, tick + 1, nextId), tick + 1, |services| * |teams|)
  {
    var minted := TickFlags(services, teams, tick + 1, nextId);
    forall t ensures Count(flags + minted, AtTick(t)) == if 0 <= t <= tick + 1 then |services| * |teams| else 0 {
      CountAppend(flags, minted, AtTick(t));
      TickFlagsPerTick(services, teams, tick + 1, nextId, t);
    }
  }

  /** Advancing from `tick` to `tick + 1` and appending that tick's flags
      keeps one flag per team for every configured service at every reached
      tick. */
  lemma AppendKeepsPerServiceFanOut(flags: seq<Flag>, services: seq<Service>, teams: seq<Team>, tick: int,
                                    nextId: int)
    requires tick >= -1 && DistinctServiceIds(services)
    requires ServicesFannedOut(flags, tick, services, |teams|)
    ensures ServicesFannedOut(flags + TickFlags(services, teams, tick + 1, nextId), tick + 1, services, |teams|)
  {
    var minted := TickFlags(services, teams, tick + 1, nextId);
    forall s, t ensures Count(flags + minted, OfServiceAtTick(s, t)) ==
      if 0 <= t <= tick + 1 && HasService(services, s) then |teams| else 0
    {
      CountAppend(flags, minted, OfServiceAtTick(s, t));
      TickFlagsPerServiceAtTick(services, teams, tick + 1, nextId, s, t);
    }
  }

  /** Sets the current tick one further and creates one flag per (service,
      team) pair for it. */
  method IncreaseTick(db: GameDatabase)
    requires db.Valid() && db.control.Some?
    modifies db`control, db`flags, db`nextFlagId
    ensures db.Valid()
    ensures db.control == Some(old(db.control).value.(currentTick := old(db.control).value.currentTick + 1))
    ensures db.flags == old(db.flags) + TickFlags(db.services, db.teams, db.control.value.currentTick, old(db.nextFlagId))
    ensures db.nextFlagId == old(db.nextFlagId) + |db.services| * |db.teams|
    ensures old(db.EveryTickFannedOut()) ==> db.EveryTickFannedOut()
  {
    var c := db.control.value;
    var minted := TickFlags(db.services, db.teams, c.currentTick + 1, db.nextFlagId);
    var grown := db.flags + minted;
    TickFlagsRows(db.services, db.teams, c.currentTick + 1, db.nextFlagId);
    AppendKeepsIdsUnique(db.flags, minted, db.nextFlagId);
    if db.EveryTickFannedOut() {
      AppendKeepsFanOut(db.flags, db.services, db.teams, c.currentTick, db.nextFlagId);
      AppendKeepsPerServiceFanOut(db.flags, db.services, db.teams, c.currentTick, db.nextFlagId);
    }
    db.flags := grown;
    db.nextFlagId := db.nextFlagId + |minted|;
    db.control := Some(c.(currentTick := c.currentTick + 1));
  }

  // ---------------------------------------------------------------------------
  // The step itself

  /** One step of the main loop on the game database; returns the sleeps it
      performs, in order. */
  method MainLoopStep(db: GameDatabase, nonstop: bool, now: int) returns (sleeps: seq<int>)
    requires db.Valid() && PositiveTickLength(db.control)
    modifies db`control, db`flags, db`nextFlagId
    ensures db.Valid() && PositiveTickLength(db.control)
    ensures old(db.control).Some? ==> db.control == Some(StepControl(old(db.control).value, nonstop, now))
    ensures var decision := Decide(old(db.control), nonstop, now);
      && (decision.Idle? ==>
            && sleeps == decision.sleeps
            && db.control == old(db.control) && db.flags == old(db.flags) && db.nextFlagId == old(db.nextFlagId))
      && (decision.Advance? ==>
            && sleeps == [0]
            && db.control == Some(old(db.control).value.(currentTick := old(db.control).value.currentTick + 1))
            && db.flags == old(db.flags) + TickFlags(db.services, db.teams, db.control.value.currentTick, old(db.nextFlagId))
            && db.nextFlagId == old(db.nextFlagId) + |db.services| * |db.teams|)
    ensures old(db.EveryTickFannedOut()) ==> db.EveryTickFannedOut()
  {
    sleeps := [];
    if !Configured(db.control) {
      // Logged: start and end time must be configured.
      sleeps := sleeps + [PollInterval];
      return;
    }
    var c := db.control.value;
    var start, end := c.start.value, c.end.value;
    if now < start {
      sleeps := sleeps + [PollInterval];
      return;
    }
    if !nonstop && now >= end {
      sleeps := sleeps + [0];
      sleeps := sleeps + [PollInterval];
      return;
    }
    var elapsed := now - start;
    if c.currentTick < elapsed / c.tickDuration {
      IncreaseTick(db);
      sleeps := sleeps + [0];
    } else {
      sleeps := sleeps + [(c.currentTick + 1) * c.tickDuration - elapsed];
    }
  }
}
