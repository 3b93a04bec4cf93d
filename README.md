# Formula 1 teams and drivers: a verified model of the result shaping and the team/driver join

The service keeps two record types in a relational store: teams (`id`,
`name`) and drivers (`id`, `name`, `team_id`, `is_titular`). Two
repositories (the team model and the driver model) each issue one query per
operation and shape the store's answer into a JavaScript object. A team
service passes team operations through, and it builds one view of its own:
every team with a `drivers` array holding its drivers.

This project models that logic as pure Dafny functions and proves what each
function promises.

- `js_values.dfy` (module `JsValues`) holds JavaScript values. A row, a
  request body or a response object is a `Record`, a `map<string, Value>`.
  Object spread `{ a: x, ...o }` is the right-biased map union
  `map["a" := x] + o`. A missing property reads as `undefined`. Strict
  equality `===` is `StrictEquals`.
- `store.dfy` (module `Store`) holds what one awaited query settles to. A
  query either succeeds with rows, an `insertId` or an `affectedRows` count,
  or it fails with a `StoreError`. The repositories receive this answer as
  input.
- `team_model.dfy` and `driver_model.dfy` (modules `TeamModel`,
  `DriverModel`) hold `create`, `getAll`, `findById`, `update`, `delete` and,
  for drivers, `getByTeamId`.
- `team_service.dfy` (module `TeamService`) holds the pass-through
  operations and the join `getAllTeamsWithDrivers`: a filter, a reduction of
  each driver to `{id, name, is_titular}`, and a spread that attaches the
  result under `drivers`.

A few points of the code that the model keeps exactly:

- A submitted `id` overrides the store's `insertId` on create, because the
  spread comes last. It also overrides the path id on update.
- `update` reports success when any row was affected (`affectedRows > 0`).
- The view keeps both the team order and each team's driver order, and the
  model proves both.

## Model

| member | source | states |
|---|---|---|
| JsValues.Get | backend/src/services/team.service.js:14-17 | property access `o.key`: the stored value when the property exists, `undefined` when it does not |
| JsValues.StrictEquals | backend/src/services/team.service.js:14 | `===`: numbers, strings and booleans compare by value, `undefined` and `null` only equal themselves, a number never equals a value of another type, and objects or arrays never compare equal |
| JsValues.StrictEqualsSymmetricTransitive | backend/src/services/team.service.js:14 | `===` on the join key is symmetric and transitive |
| JsValues.StrictlyOne | backend/src/services/team.service.js:17 | `v === 1` holds for the number 1 alone; `true`, `"1"`, 0, 2, null and undefined all fail it |
| TeamModel.Create | src/models/team.model.js:4-7 | a store error passes through; otherwise the result has the submitted keys plus `id`, keeps every submitted field verbatim, and has `id` = insertId unless the submitted fields carry their own `id`, which wins |
| TeamModel.GetAll | src/models/team.model.js:9-12 | the store's rows are returned unchanged, in the store's order; a store error passes through |
| TeamModel.FindById | src/models/team.model.js:14-17 | nothing exactly when the store returned no row, otherwise the first row; a store error passes through |
| TeamModel.Update | src/models/team.model.js:19-22 | a record exactly when `affectedRows > 0`; the record is the submitted fields over the caller's `id`, which is returned as passed and not re-read from the store; a store error passes through |
| TeamModel.Delete | src/models/team.model.js:24-27 | `true` exactly when `affectedRows > 0`, so a missing id gives `false` and not an error |
| TeamModel.UpdateShapesLikeCreate | src/models/team.model.js:4-22 | a successful update of a numeric id builds the same record as a create whose insertId is that id |
| TeamModel.NotFoundAgrees | src/models/team.model.js:19-27 | update's not-found (`null`) and delete's `false` both mean exactly zero affected rows |
| DriverModel.Create | src/models/driver.model.js:4-7 | as for teams: a store error passes through; the submitted keys plus `id`, every submitted field verbatim, and a submitted `id` overriding insertId |
| DriverModel.GetAll | src/models/driver.model.js:9-12 | the store's rows are returned unchanged; a store error passes through |
| DriverModel.FindById | src/models/driver.model.js:14-17 | nothing exactly when no row matched, otherwise the first row |
| DriverModel.Update | src/models/driver.model.js:19-22 | a record exactly when `affectedRows > 0`: `{id, ...updatedDriver}` with the id as passed unless overridden |
| DriverModel.Delete | src/models/driver.model.js:24-27 | `true` exactly when `affectedRows > 0` |
| DriverModel.GetByTeamId | src/models/driver.model.js:29-32 | the store's rows are returned unchanged, and an empty answer is an empty success, not an error |
| DriverModel.TitularAsSubmitted | src/models/driver.model.js:4-22 | create and update return `is_titular` exactly as submitted, with no conversion to a boolean |
| TeamService.BelongsTo | backend/src/services/team.service.js:14 | `driver.team_id === team.id` holds exactly when both read the same primitive value; a driver without `team_id` matches a team without `id` (`undefined === undefined`) |
| TeamService.NestedDrivers | backend/src/services/team.service.js:14-18 | the `teamDrivers` array: at most one entry per driver, each an object with exactly `id`, `name` and `is_titular`; its exact length is proved by NestedCount and its exact contents and order by EntryDrivers |
| TeamService.DriversOfTeam | backend/src/services/team.service.js:14 | the filter never yields more drivers than it was given |
| TeamService.FilterMembership | backend/src/services/team.service.js:14 | a driver is kept by the filter if and only if it is in the driver list and its `team_id` strictly equals the team's `id` |
| TeamService.FilterInOrder | backend/src/services/team.service.js:14 | the filtered list is the drivers at an increasing list of positions, and those are exactly the positions whose driver matches: complete, sound and in the order of the driver list |
| TeamService.NestedCount | backend/src/services/team.service.js:14-18 | a team's `drivers` array has as many entries as there are drivers whose `team_id` strictly equals its `id` |
| TeamService.Summary | backend/src/services/team.service.js:14-18 | a nested driver has exactly `id`, `name` and `is_titular`; `id` and `name` are copied, `team_id` is dropped, and `is_titular` is a boolean that is true exactly when the stored value is the number 1 |
| TeamService.WithDrivers | backend/src/services/team.service.js:19 | the entry keeps every property of the team and adds `drivers`, replacing a `drivers` property the team row may already have had |
| TeamService.TeamsWithDrivers | backend/src/services/team.service.js:13-20 | one entry per team, in the order of the team list |
| TeamService.EntryDrivers | backend/src/services/team.service.js:13-20 | entry `i` is team `i` with its properties kept, and its `drivers` array is the reduced form of exactly that team's drivers, in driver-list order |
| TeamService.OrphanDropped | backend/src/services/team.service.js:13-14 | a driver whose `team_id` matches no team's `id` appears under no team: removing it leaves the whole view unchanged |
| TeamService.AtMostOneTeam | backend/src/services/team.service.js:13-14 | when team ids are pairwise not strictly equal, a driver belongs to at most one team |
| TeamService.TwoDriversExample | backend/src/services/team.service.js:13-20 | a team with two drivers stored with `is_titular` 1 and 0 gets two nested drivers flagged `true` and `false`, without `team_id` |
| TeamService.NestedFlag | backend/src/services/team.service.js:17 | a matching driver row is nested with `is_titular` equal to `true` exactly when the stored value is the number 1 |
| TeamService.TrueRowNestedFalse | backend/src/services/team.service.js:17 | a store row whose `is_titular` is the boolean `true` (not the number 1) is nested with `false` |
| TeamService.GetAllTeamsWithDrivers | backend/src/services/team.service.js:9-22 | teams are read first: their failure is the result; otherwise a failure of the driver read is the result; otherwise one entry per team, entry `i` being team `i` with its drivers |
| TeamService.CreateTeam | backend/src/services/team.service.js:5-7 | returns exactly what the team repository's create returns |
| TeamService.GetTeamById | backend/src/services/team.service.js:24-26 | returns exactly what the team repository's findById returns |
| TeamService.UpdateTeam | backend/src/services/team.service.js:28-30 | returns exactly what the team repository's update returns |
| TeamService.DeleteTeam | backend/src/services/team.service.js:32-34 | returns exactly what the team repository's delete returns |

## Left out

- SQL and the connection pool. Each query's settled answer (rows, `insertId`, `affectedRows`, or a failure) is a parameter. Nothing is said about what the store contains, so "find after create returns the created record" is not modelled.
- The HTTP routes (`backend/src/routes/*.js`): status codes, JSON serialisation and console logging. They are plumbing around the modelled calls.
- `backend/server.js`: environment loading, API documentation and the listener.
- `backend/src/services/driver.service.js` is not part of this model. Each of its methods forwards to the driver model unchanged, and the routes call the driver model directly.
- `async`/`await` and concurrent requests. Once each awaited answer is given, every operation is sequential and pure.
- Numbers are integers. Floating point, `NaN` and `-0` are not modelled; the store's ids and 0/1 flags are integers.
- Reference identity: objects and arrays are never strictly equal, because every value read from the store is a fresh reference. Reference identity is not modelled.
- TeamModel.FindById, DriverModel.FindById, TeamModel.Update, DriverModel.Update: `undefined` (no row) and `null` (no row updated) are both modelled as `None`. The callers treat both as not found.
- A property whose value is `undefined` (for example `id` on a reduced driver whose row has no `id`) is kept as a key. JSON serialisation would drop such a key, and that step is not modelled.
- Property order: JavaScript objects keep the order in which properties were added, so `{ id: insertId, ...newTeam }` serialises `id` first and `{ ...team, drivers }` puts `drivers` last. A `map` has no order, so property order is not modelled; nothing in these operations depends on it.
