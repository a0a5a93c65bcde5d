# ctf-gameserver scheduling core in Dafny

This project models two parts of the ctf-gameserver competition scheduler.

- **The checker's database layer** (`src/ctf_gameserver/checker/database.py`). Checkers use it to:
  - read the game configuration;
  - count and claim the current tick's check tasks (flags) for a service;
  - commit a check result;
  - load and store their per-team state.
- **One step of the controller's main loop**, as `tests/controller/test_main_loop.py` pins it down. A step decides from the game control row and the wall clock whether a new tick begins. If so, it creates one flag per (service, team) pair for that tick and returns the sleeps it performs.

Each database function is one transaction, modelled as one atomic step on the tables. The tables are fields of two classes in `game_tables.dfy`:

- `GameDatabase` holds `scoring_gamecontrol`, `scoring_service`, `registration_team`, `scoring_flag` and `scoring_statuscheck`, plus the flag id sequence.
- `StateDatabase` holds `checkerstate`.

Other model conventions:

- Instants and durations are whole seconds. `NOW()` and the wall clock are a `now` parameter.
- A database NULL is `None`.
- `DBDataError` is `Err(DataError(..))`.
- A write refused under `prohibit_changes` is `Err(PermissionDenied)` and leaves every table as it was.

Files:

- `game_tables.dfy` holds the rows, the two database classes and `Count`. `Count` is the model of `SELECT COUNT(*)`; lemmas tie it to the set of selected rows and to concatenation.
- `checker_database.dfy` holds the checker operations.
- `controller.dfy` holds:
  - the step's decision rules (`Decide`), with lemmas about sleeping, advancing and catching up;
  - the fan-out of a tick's flags (`TickFlags`), with counting lemmas;
  - the step itself (`MainLoopStep`), which updates the game database.
- `main_loop_scenarios.dfy` has one method per test case in `MainLoopTest`, plus `NoControlScenario` for a missing control row. Each builds a fresh database, runs one step and proves what its test asserts.

The controller follows what `tests/controller/test_main_loop.py` asserts:

- The competition window ends at the control row's `end` column; `valid_ticks` plays no part in it. Two tests together rule out a window of `valid_ticks` ticks from the start: test_last_tick advances to tick 480 at 86400 s in, which would need at least 481 valid ticks, while test_shortly_after_game must be closed at 86460 s in at tick 479, which would need at most 480.
- The game counts as unconfigured when the control row's `start` or `end` is NULL (test_null). The model treats a missing control row the same way; no test covers that case.
- The rules apply in this order: unconfigured (sleep 60), before start (sleep 60), window closed and not nonstop (sleep 0, then 60), behind the clock (advance one tick and sleep 0), otherwise sleep until the next tick boundary.
- The fixture's tick length of 180 s comes from the undue case: at 1030 s elapsed with tick 5, the test expects a sleep in (40, 50]. Its two services and three teams come from the counts 6, 3 and 2. The general members take the tick length, the services and the teams as parameters.

## Model

| member | source | states |
|---|---|---|
| `CheckerDatabase.GetControlInfo` | src/ctf_gameserver/checker/database.py:44-60 | fails with a data error exactly when there is no control row; otherwise returns that row's start, valid ticks and tick duration unchanged |
| `CheckerDatabase.FindService` | src/ctf_gameserver/checker/database.py:68-70 | finds nothing exactly when no service has the slug; whatever it finds is a row of the table with that slug |
| `CheckerDatabase.GetServiceAttributes` | src/ctf_gameserver/checker/database.py:63-78 | fails with a data error exactly when no service has the slug; otherwise returns the id and name of a service row with that slug |
| `CheckerDatabase.GetCurrentTick` | src/ctf_gameserver/checker/database.py:81-93 | fails with a data error exactly when there is no control row; otherwise returns its current tick |
| `CheckerDatabase.GetTaskCount` | src/ctf_gameserver/checker/database.py:96-109 | is the number of flag rows of the service whose tick is the current tick, whatever their placement columns hold; 0 without a control row |
| `CheckerDatabase.IsOpenTask` | src/ctf_gameserver/checker/database.py:120-123 | the claim's WHERE clause: unclaimed, of the service, at the tick, with a registered team. Its rules are stated through `OpenRows` and `OpenTasks`, which hold exactly the rows it accepts |
| `CheckerDatabase.NetNumberOf` | src/ctf_gameserver/checker/database.py:118-123 | the join with `registration_team`: finds nothing exactly when no team has the user id; otherwise the team row's net number |
| `CheckerDatabase.OpenRows` | src/ctf_gameserver/checker/database.py:118-123 | holds exactly the rows the claim's WHERE clause selects (unclaimed, of the service, at the tick, with a registered team), each once, in table order |
| `CheckerDatabase.OpenTasks` | src/ctf_gameserver/checker/database.py:118-123 | holds exactly the open rows of the service at the current tick, without repeats; none when there is no control row |
| `CheckerDatabase.ChooseBatch` | src/ctf_gameserver/checker/database.py:124-127 | returns min(limit, candidates) distinct candidate rows; which ones is left open, as with the random order |
| `CheckerDatabase.MarkInProgress` | src/ctf_gameserver/checker/database.py:129-138 | sets `placementStart` to now on exactly the picked rows, changes no other row or column, and returns each picked row's team id, net number and tick, in the order picked |
| `CheckerDatabase.GetNewTasks` | src/ctf_gameserver/checker/database.py:112-138 | returns min(taskCount, open tasks) tasks, one per claimed row, each from a distinct row that was open before the call; only those rows change, and only their `placementStart`; task counts and the fan-out invariant (per tick and per (service, tick)) are kept; with changes prohibited it fails and changes nothing |
| `CheckerDatabase.ClaimTwice` | src/ctf_gameserver/checker/database.py:117-132 | two claims in a row never hand out the same row |
| `CheckerDatabase.HasNetNumber` | src/ctf_gameserver/checker/database.py:147-150 | the net-number lookup. Its rule is stated by `CommitResult`: the result is dropped exactly when the lookup fails and there is no fallback id, and otherwise the team resolved is one with that net number |
| `CheckerDatabase.MatchesCommit` | src/ctf_gameserver/checker/database.py:162-166 | the commit UPDATE's WHERE clause. Its rule is stated by `CommitResult`: `placementEnd` is set on exactly the rows it matches |
| `CheckerDatabase.CommitResult` | src/ctf_gameserver/checker/database.py:141-166 | an unknown net number without a fallback id changes nothing and returns normally; otherwise the team (or the fallback id) gets exactly one appended status row, and every flag of (service, team, tick) gets `placementEnd` set, already closed ones included; nothing else changes, so task counts and the fan-out invariant are kept; with changes prohibited a resolved commit fails and changes nothing |
| `CheckerDatabase.LoadState` | src/ctf_gameserver/checker/database.py:169-183 | returns the stored blob for the key, or no state exactly when the key was never stored |
| `CheckerDatabase.StoreState` | src/ctf_gameserver/checker/database.py:186-197 | upserts: afterwards the key loads the new blob and every other key loads what it did before; with changes prohibited it fails and changes nothing |
| `CheckerDatabase.StateStoreScenario` | src/ctf_gameserver/checker/database.py:169-197 | from an empty store, the second of two stores under one key is what loads, a store under another key does not disturb it, and a never-stored key loads as no state |
| `CheckerDatabase.TaskCountIsTeamCount` | src/ctf_gameserver/checker/database.py:96-109 | once a tick has started in a fanned-out game, a configured service's task count equals the number of teams, and any other service's is 0 |
| `CheckerDatabase.PlacementUpdateKeepsCounts` | src/ctf_gameserver/checker/database.py:103-106 | changing only placement timestamps leaves every per-tick flag count and every task count unchanged |
| `GameTables.Count` | src/ctf_gameserver/checker/database.py:103-106 | `SELECT COUNT(*)` over the flag rows a condition selects; never more than the rows, and `CountIsSelectedSize` proves it equals the number of selected rows |
| `GameTables.CountIsSelectedSize` | src/ctf_gameserver/checker/database.py:103-107 | the recursive count equals the number of selected rows |
| `GameTables.CountSingleHit` | tests/controller/test_main_loop.py:64-67 | a selected row flanked by unselected rows counts exactly once |
| `Controller.Configured` | tests/controller/test_main_loop.py:12-18 | the check that start and end are set. Its rule is stated by `Decide`: without it, a step sleeps once, for 60 |
| `Controller.TargetTick` | tests/controller/test_main_loop.py:74-117 | the tick the clock implies: that many whole ticks fit into the time since the start, one more does not |
| `Controller.Decide` | tests/controller/test_main_loop.py:12-201 | the decision rules in order. Unconfigured gives one sleep of 60. An advance happens only when configured, started, inside the window or nonstop, and behind the clock. An idle step sleeps once or twice. The rules are completed by `AdvancesExactlyWhenBehind`, `SleepsUntilNextBoundary` and `ClosedWindowIdles` |
| `Controller.AdvancesExactlyWhenBehind` | tests/controller/test_main_loop.py:98-137 | inside the window (or nonstop) after the start, a step advances exactly when the current tick is behind the tick the clock implies |
| `Controller.SleepsUntilNextBoundary` | tests/controller/test_main_loop.py:74-96 | when not behind, a step sleeps once, until exactly the start of the next tick; that sleep is positive, and at most one tick length when the tick matches the clock |
| `Controller.ClosedWindowIdles` | tests/controller/test_main_loop.py:139-181 | after the end and not nonstop, every step sleeps 0 and then 60 and never advances |
| `Controller.StepControl` | tests/controller/test_main_loop.py:98-117 | the control row after one step, which is what `MainLoopStep` leaves behind; a step never changes the tick length |
| `Controller.RunSteps` | tests/controller/test_main_loop.py:98-117 | the control row after repeated steps at one clock reading; they never change the tick length |
| `Controller.CatchUpOneTickPerStep` | tests/controller/test_main_loop.py:98-117 | k steps at one clock reading, with the clock at least k ticks ahead, advance the tick by exactly k, one per step |
| `Controller.CatchUpSettles` | tests/controller/test_main_loop.py:74-117 | catching up stops at the tick the clock implies, and the next step then sleeps for a positive time of at most one tick length |
| `Controller.TeamFlags` | tests/controller/test_main_loop.py:54-67 | one service's flags for a new tick. Its rules are stated by `TeamFlagsRows`, `TeamFlagsPerTeam`, `TeamFlagsPerPair` and `TeamFlagsPerService` |
| `Controller.TickFlags` | tests/controller/test_main_loop.py:54-72 | a new tick's flags. Their rules are stated by `TickFlagsRows`, `TickFlagsPerService`, `TickFlagsPerTeam`, `TickFlagsPerPair`, `TickFlagsPerServiceAtTick` and `TickFlagsPerTick` |
| `Controller.TeamFlagsRows` | tests/controller/test_main_loop.py:54-67 | a service's new flags are one per team, in team order, unclaimed and unclosed, with consecutive ids |
| `Controller.TickFlagsRows` | tests/controller/test_main_loop.py:54-72 | a new tick has services × teams flags, all at the tick, all unclaimed and unclosed, with consecutive fresh ids |
| `Controller.HasServiceSplit` | tests/controller/test_main_loop.py:59-62 | with distinct service ids, the remaining services keep distinct ids, and an id is either the first service's or one of the rest's, never both |
| `Controller.TeamFlagsPerService` | tests/controller/test_main_loop.py:59-62 | a service's new flags all belong to that service: teams-many for it, none for any other |
| `Controller.CountTickFlagsSplit` | tests/controller/test_main_loop.py:54-72 | counting a new tick's flags splits into the first service's flags and the rest's |
| `Controller.TeamFlagsPerTeam` | tests/controller/test_main_loop.py:64-67 | within one service's flags, a registered team has exactly one flag and any other team none |
| `Controller.TeamFlagsPerPair` | tests/controller/test_main_loop.py:54-67 | within one service's flags, each (service, team) pair has one flag exactly when it is that service and a registered team |
| `Controller.CountSamePredicate` | tests/controller/test_main_loop.py:54-67 | two row conditions that agree on every row count alike |
| `Controller.TickFlagsPerService` | tests/controller/test_main_loop.py:59-62 | a new tick gives each configured service one flag per team, and any other service none |
| `Controller.TickFlagsPerTeam` | tests/controller/test_main_loop.py:64-67 | a new tick gives each registered team one flag per service, and any other team none |
| `Controller.TickFlagsPerPair` | tests/controller/test_main_loop.py:54-67 | a new tick gives exactly one flag to every (service, team) pair, and none to any other pair |
| `Controller.TickFlagsPerServiceAtTick` | tests/controller/test_main_loop.py:59-72 | a new tick gives each configured service one flag per team at that tick, and no other (service, tick) any flag |
| `Controller.AppendKeepsPerServiceFanOut` | tests/controller/test_main_loop.py:109-117 | after advancing one tick and appending its flags, every configured service still has one flag per team at every reached tick, and nothing elsewhere |
| `Controller.TickFlagsPerTick` | tests/controller/test_main_loop.py:69-72 | all services × teams new flags carry the new tick, and none carries any other tick |
| `Controller.AppendKeepsIdsUnique` | tests/controller/test_main_loop.py:54-57 | flags appended with ids from the sequence keep flag ids unique and below the advanced sequence |
| `Controller.AppendKeepsFanOut` | tests/controller/test_main_loop.py:109-117 | after advancing one tick and appending its flags, every reached tick still has services × teams flags and later ticks none |
| `Controller.IncreaseTick` | tests/controller/test_main_loop.py:109-117 | the current tick goes up by exactly one, that tick's flags are appended and the flag id sequence moves past them; the fan-out invariant, per tick and per (service, tick), is kept |
| `Controller.MainLoopStep` | tests/controller/test_main_loop.py:12-201 | the step does what the decision rules say. An idle step leaves the control row and the flags as they were and performs the decided sleeps in order. An advancing step raises the tick by one, appends one flag per (service, team) pair at the new tick, advances the flag id sequence past them and sleeps 0. Either way the new control row is the one `StepControl` computes, and the fan-out invariant (per tick and per (service, tick)) is kept |
| `MainLoopScenarios.NewGame` | tests/controller/test_main_loop.py:8-10 | a fresh fixture database with the given times and tick and no flags |
| `MainLoopScenarios.NullScenario` | tests/controller/test_main_loop.py:12-18 | start and end not configured: the step sleeps once, for 60 |
| `MainLoopScenarios.NoControlScenario` | tests/controller/test_main_loop.py:12-18 | no control row: the step sleeps once, for 60 |
| `MainLoopScenarios.BeforeGameScenario` | tests/controller/test_main_loop.py:20-38 | an hour before the start: one sleep of 60, the tick stays -1 and no flags exist |
| `MainLoopScenarios.FirstTickScenario` | tests/controller/test_main_loop.py:40-72 | at the start: sleep 0, tick 0, services × teams flags (6), all at tick 0, teams-many per service (3) and services-many per team (2); the checker's task count for a configured service is then the number of teams |
| `MainLoopScenarios.NextTickUndueScenario` | tests/controller/test_main_loop.py:74-96 | 1030 s in at tick 5, stepped within 10 s: one sleep in (40, 50], the tick stays 5, no flags |
| `MainLoopScenarios.NextTickOverdueScenario` | tests/controller/test_main_loop.py:98-117 | 19 minutes in at tick 5: sleep 0, tick 6, services × teams flags at tick 6 |
| `MainLoopScenarios.LastTickScenario` | tests/controller/test_main_loop.py:119-137 | a day in, three minutes before the end, at tick 479: sleep 0, tick 480, services × teams flags at tick 480 |
| `MainLoopScenarios.ShortlyAfterGameScenario` | tests/controller/test_main_loop.py:139-159 | a minute after the end: sleeps 0 then 60, the tick stays 479, no flags |
| `MainLoopScenarios.LongAfterGameScenario` | tests/controller/test_main_loop.py:161-181 | 25 minutes after the end: sleeps 0 then 60, the tick stays 479, no flags |
| `MainLoopScenarios.AfterGameNonstopScenario` | tests/controller/test_main_loop.py:183-201 | at the end in nonstop mode: sleep 0, tick 480, services × teams flags at tick 480 |

## Left out

- `connect_to_dbs` (src/ctf_gameserver/checker/database.py:9-41): it only opens connections, sets the session time zone and logs.
- Row locking, isolation levels and concurrent callers. Each function is one atomic step. `ORDER BY RANDOM()` is a nondeterministic choice among the open rows, so `ClaimTwice` covers successive claims only, not concurrent ones.
- `transaction_cursor` and the enforcement of `prohibit_changes` live in `ctf_gameserver.lib.database`, which is not part of this model. The model uses a flag and takes the comments at database.py:160-161 and :192 at their word: a write under the flag fails. Which statements count as writes is this model's reading:
  - the claim fails whenever the flag is set;
  - a commit fails only once a team id is known, because a commit without one returns before writing;
  - a store always fails.
- The read-only functions ignore `prohibit_changes`, so their Dafny signatures leave the flag out.
- Logging (the unknown-net-number error in `commit_result`, the controller's warning). Only the observable effect, "nothing changes", is modelled.
- Timestamps are integer seconds. There is no datetime or time-zone arithmetic, and sleeps are whole seconds.
- `controller.main_loop_step` itself is not part of this model. `MainLoopStep` models the behaviour its tests assert. Scoring updates or metrics the real step may perform are not modelled, and `valid_ticks` plays no part in the window.
- `Decide` and `MainLoopStep` require a configured tick length to be positive, because the step divides by it. What the real step does with a zero or negative `tick_duration` is not part of this model.
- `NoControlScenario`: no test removes the control row, and the only code shown reading it (database.py:53-54, :90-91) raises `DBDataError` when it is missing. The model treats a missing row as unconfigured: one sleep of 60.
- `MainLoopStep`'s fan-out covers every row of `registration_team`. Any filtering of inactive teams in the real flag insert is not part of this model.
- `get_new_tasks`: the model takes the batch size as a natural number. A negative `LIMIT`, which PostgreSQL rejects, is not modelled.
- The model updates claimed flags by row position, not by `WHERE id = ...`. `GameDatabase.Valid` keeps flag ids unique, which makes the two the same.
- `src/ctf_gameserver/vpnstatus/database.py`: a plain SQL join and a flattening of float measurements into insert rows, with no decision logic to verify.
