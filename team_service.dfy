/** The team service: the teams-with-drivers view, and pass-through access
    to the team repository. The view is a join written by hand: for every
    team, in order, the drivers whose `team_id` is strictly equal to the
    team's `id`, in order, each reduced to `{id, name, is_titular}`. */
module TeamService {
  import opened JsValues
  import opened Store
  import TeamModel
  import DriverModel

  /** `driver.team_id === team.id`, with a missing property read as `undefined`. */
  predicate BelongsTo(driver: Record, team: Record)
    ensures BelongsTo(driver, team) <==>
      IsPrimitive(Get(team, "id")) && Get(driver, "team_id") == Get(team, "id")
    ensures "team_id" !in driver && "id" !in team ==> BelongsTo(driver, team)
  {
    StrictEquals(Get(driver, "team_id"), Get(team, "id"))
  }

  /** `drivers.filter(driver => driver.team_id === team.id)`. */
  function DriversOfTeam(team: Record, drivers: seq<Record>): (r: seq<Record>)
    ensures |r| <= |drivers|
  {
    if drivers == [] then []
    else if BelongsTo(drivers[0], team) then [drivers[0]] + DriversOfTeam(team, drivers[1..])
    else DriversOfTeam(team, drivers[1..])
  }

  /** The reduced driver `{ id, name, is_titular: driver.is_titular === 1 }`:
      exactly three properties, `team_id` dropped, and a boolean that is true
      for the stored number 1 alone. */
  function Summary(driver: Record): (r: Record)
    ensures r.Keys == {"id", "name", "is_titular"}
    ensures r["id"] == Get(driver, "id") && r["name"] == Get(driver, "name")
    ensures r["is_titular"].Bool?
    ensures r["is_titular"].b <==> Get(driver, "is_titular") == Num(1)
  {
    map["id" := Get(driver, "id"),
        "name" := Get(driver, "name"),
        "is_titular" := Bool(StrictEquals(Get(driver, "is_titular"), Num(1)))]
  }

  /** The `drivers` array attached to one team. */
  function NestedDrivers(team: Record, drivers: seq<Record>): (r: seq<Value>)
    ensures |r| <= |drivers|
    ensures forall k :: 0 <= k < |r| ==> r[k].Obj? && r[k].fields.Keys == {"id", "name", "is_titular"}
  {
    var mine := DriversOfTeam(team, drivers);
    seq(|mine|, k requires 0 <= k < |mine| => Obj(Summary(mine[k])))
  }

  /** `{ ...team, drivers: teamDrivers }`: every property of the team is kept
      except that `drivers` is (re)placed by the nested array. */
  function WithDrivers(team: Record, drivers: seq<Record>): (r: Record)
    ensures r.Keys == team.Keys + {"drivers"}
    ensures forall k :: k in team && k != "drivers" ==> r[k] == team[k]
    ensures r["drivers"] == Arr(NestedDrivers(team, drivers))
  {
    team + map["drivers" := Arr(NestedDrivers(team, drivers))]
  }

  /** `teams.map(team => ...)`: one entry per team, in the same order. */
  function TeamsWithDrivers(teams: seq<Record>, drivers: seq<Record>): (r: seq<Record>)
    ensures |r| == |teams|
    ensures forall i :: 0 <= i < |teams| ==> r[i] == WithDrivers(teams[i], drivers)
  {
    seq(|teams|, i requires 0 <= i < |teams| => WithDrivers(teams[i], drivers))
  }

  /** `getAllTeamsWithDrivers()`: teams are read first, then drivers; the
      first rejected read is what the call rejects with. */
  function GetAllTeamsWithDrivers(teamRows: Result<seq<Record>>, driverRows: Result<seq<Record>>)
    : (r: Result<seq<Record>>)
    ensures teamRows.Err? ==> r == Err(teamRows.error)
    ensures teamRows.Ok? && driverRows.Err? ==> r == Err(driverRows.error)
    ensures teamRows.Ok? && driverRows.Ok? ==>
      r.Ok? && |r.value| == |teamRows.value|
      && forall i :: 0 <= i < |r.value| ==>
           r.value[i] == WithDrivers(teamRows.value[i], driverRows.value)
  {
    match TeamModel.GetAll(teamRows)
    case Err(e) => Err(e)
    case Ok(teams) =>
      match DriverModel.GetAll(driverRows)
      case Err(e) => Err(e)
      case Ok(drivers) => Ok(TeamsWithDrivers(teams, drivers))
  }

  /** `createTeam`: exactly what the team repository's create returns. */
  function CreateTeam(teamData: Record, answer: Result<InsertResult>): (r: Result<Record>)
    ensures r == TeamModel.Create(teamData, answer)
  {
    TeamModel.Create(teamData, answer)
  }

  /** `getTeamById`: exactly what the team repository's findById returns. */
  function GetTeamById(id: Value, answer: Result<seq<Record>>): (r: Result<Option<Record>>)
    ensures r == TeamModel.FindById(id, answer)
  {
    TeamModel.FindById(id, answer)
  }

  /** `updateTeam`: exactly what the team repository's update returns. */
  function UpdateTeam(id: Value, teamData: Record, answer: Result<MutationResult>): (r: Result<Option<Record>>)
    ensures r == TeamModel.Update(id, teamData, answer)
  {
    TeamModel.Update(id, teamData, answer)
  }

  /** `deleteTeam`: exactly what the team repository's delete returns. */
  function DeleteTeam(id: Value, answer: Result<MutationResult>): (r: Result<bool>)
    ensures r == TeamModel.Delete(id, answer)
  {
    TeamModel.Delete(id, answer)
  }

  // ---------------------------------------------------------------------
  // Properties of the join

  /** `idx` lists, in increasing order, exactly the positions of the drivers
      that belong to `team`. */
  ghost predicate EnumeratesMatches(idx: seq<nat>, team: Record, drivers: seq<Record>)
  {
    && (forall k :: 0 <= k < |idx| ==> idx[k] < |drivers|)
    && (forall k, l :: 0 <= k < l < |idx| ==> idx[k] < idx[l])
    && (forall j :: 0 <= j < |drivers| ==> (BelongsTo(drivers[j], team) <==> j in idx))
  }

  /** The positions of the drivers that belong to `team`. */
  ghost function MatchPositions(team: Record, drivers: seq<Record>): set<nat>
  {
    set j: nat | j < |drivers| && BelongsTo(drivers[j], team)
  }

  /** The filter keeps exactly the matching drivers, each once, in their
      relative order in the driver list. */
  lemma {:induction false} FilterInOrder(team: Record, drivers: seq<Record>) returns (idx: seq<nat>)
    ensures EnumeratesMatches(idx, team, drivers)
    ensures |DriversOfTeam(team, drivers)| == |idx|
    ensures forall k :: 0 <= k < |idx| ==> DriversOfTeam(team, drivers)[k] == drivers[idx[k]]
  {
    if drivers == [] {
      idx := [];
    } else {
      var rest := FilterInOrder(team, drivers[1..]);
      idx := FilterStep(team, drivers, rest);
    }
  }

  /** One step of the filter: from the positions matched in the tail of the
      driver list to those matched in the whole list. */
  lemma FilterStep(team: Record, drivers: seq<Record>, rest: seq<nat>) returns (idx: seq<nat>)
    requires drivers != []
    requires EnumeratesMatches(rest, team, drivers[1..])
    requires |DriversOfTeam(team, drivers[1..])| == |rest|
    requires forall k :: 0 <= k < |rest| ==> DriversOfTeam(team, drivers[1..])[k] == drivers[1..][rest[k]]
    ensures EnumeratesMatches(idx, team, drivers)
    ensures |DriversOfTeam(team, drivers)| == |idx|
    ensures forall k :: 0 <= k < |idx| ==> DriversOfTeam(team, drivers)[k] == drivers[idx[k]]
  {
    var shifted := Shifted(rest, |drivers| - 1);
    idx := if BelongsTo(drivers[0], team) then [0] + shifted else shifted;
    PositionsStep(team, drivers, rest, shifted, idx);
    ElementsStep(team, drivers, rest, shifted, idx);
  }

  /** The positions half of a filter step. */
  lemma PositionsStep(team: Record, drivers: seq<Record>, rest: seq<nat>, shifted: seq<nat>, idx: seq<nat>)
    requires drivers != []
    requires EnumeratesMatches(rest, team, drivers[1..])
    requires |shifted| == |rest|
    requires forall k :: 0 <= k < |rest| ==> shifted[k] == rest[k] + 1
    requires forall j :: 1 <= j <= |drivers| - 1 ==> (j in shifted <==> j - 1 in rest)
    requires 0 !in shifted
    requires idx == if BelongsTo(drivers[0], team) then [0] + shifted else shifted
    ensures EnumeratesMatches(idx, team, drivers)
  {
  }

  /** The elements half of a filter step. */
  lemma ElementsStep(team: Record, drivers: seq<Record>, rest: seq<nat>, shifted: seq<nat>, idx: seq<nat>)
    requires drivers != []
    requires |DriversOfTeam(team, drivers[1..])| == |rest|
    requires forall k :: 0 <= k < |rest| ==> rest[k] < |drivers| - 1
    requires forall k :: 0 <= k < |rest| ==> DriversOfTeam(team, drivers[1..])[k] == drivers[1..][rest[k]]
    requires |shifted| == |rest|
    requires forall k :: 0 <= k < |rest| ==> shifted[k] == rest[k] + 1
    requires idx == if BelongsTo(drivers[0], team) then [0] + shifted else shifted
    ensures |DriversOfTeam(team, drivers)| == |idx|
    ensures forall k :: 0 <= k < |idx| ==> idx[k] < |drivers| && DriversOfTeam(team, drivers)[k] == drivers[idx[k]]
  {
    if BelongsTo(drivers[0], team) {
      KeptHead(team, drivers, rest, shifted, idx);
    } else {
      SkippedHead(team, drivers, rest, shifted, idx);
    }
  }

  /** The head of the driver list matches: it comes first, the tail's matches follow. */
  lemma KeptHead(team: Record, drivers: seq<Record>, rest: seq<nat>, shifted: seq<nat>, idx: seq<nat>)
    requires drivers != []
    requires |DriversOfTeam(team, drivers[1..])| == |rest|
    requires forall k :: 0 <= k < |rest| ==> rest[k] < |drivers| - 1
    requires forall k :: 0 <= k < |rest| ==> DriversOfTeam(team, drivers[1..])[k] == drivers[1..][rest[k]]
    requires |shifted| == |rest|
    requires forall k :: 0 <= k < |rest| ==> shifted[k] == rest[k] + 1
    requires BelongsTo(drivers[0], team) && idx == [0] + shifted
    ensures |DriversOfTeam(team, drivers)| == |idx|
    ensures forall k :: 0 <= k < |idx| ==> idx[k] < |drivers| && DriversOfTeam(team, drivers)[k] == drivers[idx[k]]
  {
    var tail := drivers[1..];
    var f, ftail := DriversOfTeam(team, drivers), DriversOfTeam(team, tail);
    assert f == [drivers[0]] + ftail;
    forall k | 1 <= k < |idx|
      ensures f[k] == drivers[idx[k]]
    {
      ConsAt(drivers[0], ftail, k);
      ConsAt(0, shifted, k);
      assert tail[rest[k - 1]] == drivers[idx[k]];
    }
  }

  /** The head of the driver list does not match: only the tail's matches remain. */
  lemma SkippedHead(team: Record, drivers: seq<Record>, rest: seq<nat>, shifted: seq<nat>, idx: seq<nat>)
    requires drivers != []
    requires |DriversOfTeam(team, drivers[1..])| == |rest|
    requires forall k :: 0 <= k < |rest| ==> rest[k] < |drivers| - 1
    requires forall k :: 0 <= k < |rest| ==> DriversOfTeam(team, drivers[1..])[k] == drivers[1..][rest[k]]
    requires |shifted| == |rest|
    requires forall k :: 0 <= k < |rest| ==> shifted[k] == rest[k] + 1
    requires !BelongsTo(drivers[0], team) && idx == shifted
    ensures |DriversOfTeam(team, drivers)| == |idx|
    ensures forall k :: 0 <= k < |idx| ==> idx[k] < |drivers| && DriversOfTeam(team, drivers)[k] == drivers[idx[k]]
  {
    var tail := drivers[1..];
    var f, ftail := DriversOfTeam(team, drivers), DriversOfTeam(team, tail);
    assert f == ftail;
    forall k | 0 <= k < |idx|
      ensures f[k] == drivers[idx[k]]
    {
      assert tail[rest[k]] == drivers[idx[k]];
    }
  }

  /** Indexing past the head of a list. */
  lemma ConsAt<T>(x: T, s: seq<T>, k: nat)
    requires 1 <= k <= |s|
    ensures ([x] + s)[k] == s[k - 1]
  {
  }

  /** Every position moved one place to the right, as when the filter skips
      past the head of the driver list. */
  lemma Shifted(rest: seq<nat>, n: nat) returns (shifted: seq<nat>)
    requires forall k :: 0 <= k < |rest| ==> rest[k] < n
    requires forall k, l :: 0 <= k < l < |rest| ==> rest[k] < rest[l]
    ensures |shifted| == |rest|
    ensures forall k :: 0 <= k < |rest| ==> shifted[k] == rest[k] + 1
    ensures forall k, l :: 0 <= k < l < |shifted| ==> shifted[k] < shifted[l]
    ensures forall j :: 1 <= j <= n ==> (j in shifted <==> j - 1 in rest)
    ensures 0 !in shifted
  {
    shifted := seq(|rest|, k requires 0 <= k < |rest| => rest[k] + 1);
    forall j | 1 <= j <= n
      ensures j in shifted <==> j - 1 in rest
    {
      if j in shifted {
        var k :| 0 <= k < |shifted| && shifted[k] == j;
        assert rest[k] == j - 1;
      }
      if j - 1 in rest {
        var k :| 0 <= k < |rest| && rest[k] == j - 1;
        assert shifted[k] == j;
      }
    }
  }

  /** Membership both ways: a driver record is kept by the filter exactly
      when it is in the driver list and belongs to the team. */
  lemma {:induction false} FilterMembership(team: Record, drivers: seq<Record>, d: Record)
    ensures d in DriversOfTeam(team, drivers) <==> d in drivers && BelongsTo(d, team)
  {
    if drivers != [] {
      FilterMembership(team, drivers[1..], d);
      assert drivers == [drivers[0]] + drivers[1..];
    }
  }

  /** A strictly increasing list of positions has as many distinct elements
      as entries. */
  lemma {:induction false} IncreasingDistinct(idx: seq<nat>)
    requires forall k, l :: 0 <= k < l < |idx| ==> idx[k] < idx[l]
    ensures |Elements(idx)| == |idx|
  {
    if idx != [] {
      var tail := idx[1..];
      IncreasingDistinct(tail);
      assert idx == [idx[0]] + tail;
      assert Elements(idx) == {idx[0]} + Elements(tail);
      assert idx[0] !in Elements(tail);
    }
  }

  /** The set of entries of a list of positions. */
  ghost function Elements(idx: seq<nat>): set<nat>
  {
    set x | x in idx
  }

  /** Completeness: a team's `drivers` array has one entry per driver whose
      `team_id` strictly equals the team's `id`, no more and no fewer. */
  lemma NestedCount(team: Record, drivers: seq<Record>)
    ensures |NestedDrivers(team, drivers)| == |MatchPositions(team, drivers)|
  {
    var idx := FilterInOrder(team, drivers);
    IncreasingDistinct(idx);
    assert Elements(idx) == MatchPositions(team, drivers);
  }

  /** The whole view, entry by entry: entry `i` is team `i` with its
      properties kept, and its `drivers` array is the reduced form of the
      drivers at the positions `idx` (exactly the drivers of that team, in
      driver-list order). */
  lemma EntryDrivers(teams: seq<Record>, drivers: seq<Record>, i: nat) returns (idx: seq<nat>)
    requires i < |teams|
    ensures EnumeratesMatches(idx, teams[i], drivers)
    ensures var entry := TeamsWithDrivers(teams, drivers)[i];
      && entry.Keys == teams[i].Keys + {"drivers"}
      && (forall k :: k in teams[i] && k != "drivers" ==> entry[k] == teams[i][k])
      && entry["drivers"].Arr?
      && |entry["drivers"].elems| == |idx|
      && forall k :: 0 <= k < |idx| ==> entry["drivers"].elems[k] == Obj(Summary(drivers[idx[k]]))
  {
    idx := FilterInOrder(teams[i], drivers);
  }

  /** The filter distributes over a split of the driver list. */
  lemma {:induction false} FilterAppend(team: Record, a: seq<Record>, b: seq<Record>)
    ensures DriversOfTeam(team, a + b) == DriversOfTeam(team, a) + DriversOfTeam(team, b)
  {
    if a == [] {
      assert a + b == b;
    } else {
      var ab := a + b;
      assert ab[0] == a[0];
      assert ab[1..] == a[1..] + b;
      FilterAppend(team, a[1..], b);
      var rest := DriversOfTeam(team, a[1..]) + DriversOfTeam(team, b);
      if BelongsTo(a[0], team) {
        assert DriversOfTeam(team, ab) == [a[0]] + rest;
      } else {
        assert DriversOfTeam(team, ab) == rest;
      }
    }
  }

  /** A driver whose `team_id` matches no team's `id` appears under no team:
      removing it from the driver list leaves the whole view unchanged. */
  lemma OrphanDropped(teams: seq<Record>, drivers: seq<Record>, j: nat)
    requires j < |drivers|
    requires forall t :: t in teams ==> !BelongsTo(drivers[j], t)
    ensures TeamsWithDrivers(teams, drivers) == TeamsWithDrivers(teams, drivers[..j] + drivers[j + 1..])
  {
    var others := drivers[..j] + drivers[j + 1..];
    forall i | 0 <= i < |teams|
      ensures WithDrivers(teams[i], drivers) == WithDrivers(teams[i], others)
    {
      var t := teams[i];
      assert drivers == drivers[..j] + ([drivers[j]] + drivers[j + 1..]);
      FilterAppend(t, drivers[..j], [drivers[j]] + drivers[j + 1..]);
      FilterAppend(t, [drivers[j]], drivers[j + 1..]);
      FilterAppend(t, drivers[..j], drivers[j + 1..]);
      assert DriversOfTeam(t, [drivers[j]]) == [];
      assert DriversOfTeam(t, drivers) == DriversOfTeam(t, others);
    }
  }

  /** When no two teams have strictly equal ids, a driver is nested under at
      most one team. */
  lemma AtMostOneTeam(teams: seq<Record>, driver: Record, i1: nat, i2: nat)
    requires i1 < |teams| && i2 < |teams|
    requires forall a, b :: 0 <= a < b < |teams| ==> !StrictEquals(Get(teams[a], "id"), Get(teams[b], "id"))
    requires BelongsTo(driver, teams[i1]) && BelongsTo(driver, teams[i2])
    ensures i1 == i2
  {
  }

  /** A team with two drivers stored with `is_titular` 1 and 0 gets a
      `drivers` array of two entries whose flags are `true` and `false`. */
  lemma TwoDriversExample()
    ensures var team := map["id" := Num(1), "name" := Str("Red Bull Racing")];
      var first := map["id" := Num(10), "name" := Str("Max"), "team_id" := Num(1), "is_titular" := Num(1)];
      var second := map["id" := Num(11), "name" := Str("Liam"), "team_id" := Num(1), "is_titular" := Num(0)];
      var nested := TeamsWithDrivers([team], [first, second])[0]["drivers"].elems;
      |nested| == 2
      && nested[0].fields["is_titular"] == Bool(true)
      && nested[1].fields["is_titular"] == Bool(false)
      && "team_id" !in nested[0].fields
  {
  }

  /** A driver row whose stored `is_titular` is anything but the number 1
      (0, 2, null, or a boolean `true` the store handed back unconverted) is
      nested with `false`; a row holding 1 is nested with `true`. */
  lemma NestedFlag(team: Record, driver: Record)
    requires BelongsTo(driver, team)
    ensures var nested := TeamsWithDrivers([team], [driver])[0]["drivers"].elems;
      |nested| == 1
      && nested[0].fields["is_titular"] == Bool(Get(driver, "is_titular") == Num(1))
  {
    assert DriversOfTeam(team, [driver]) == [driver];
  }

  /** In particular a row holding the boolean `true` is nested as not titular. */
  lemma TrueRowNestedFalse(team: Record, driver: Record)
    requires BelongsTo(driver, team) && Get(driver, "is_titular") == Bool(true)
    ensures TeamsWithDrivers([team], [driver])[0]["drivers"].elems[0].fields["is_titular"] == Bool(false)
  {
    NestedFlag(team, driver);
  }
}
