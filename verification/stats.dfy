/**
 * The stats exporter, `getPlayerStats`: each player's year-by-year splits in
 * the National Hockey League, written to the skaters file or the goalies file
 * according to the player's primary position type.
 */
module Stats {
  import opened Wrappers
  import opened Text
  import opened Records

  /** The two output streams a player's rows can go to. */
  datatype Role = Skater | Goalie

  const GoalieType: string := "Goalie"
  const NationalHockeyLeague: string := "National Hockey League"
  const SkatersHeader: string := "playerID,season,games,timeOnIce,points,goals,assists,shots \n"
  const GoaliesHeader: string := "playerID,season,games,wins,losses,ot_losses,shutouts \n"

  function Header(role: Role): string {
    match role
    case Skater => SkatersHeader
    case Goalie => GoaliesHeader
  }

  /** The `stat` keys written after the season, in column order. */
  function StatKeys(role: Role): seq<string> {
    match role
    case Skater => ["games", "timeOnIce", "points", "goals", "assists", "shots"]
    case Goalie => ["games", "wins", "losses", "ot_losses", "shutouts"]
  }

  /** Any primary position type other than exactly "Goalie", or none at all, makes a skater. */
  function RoleOf<V>(p: Player<V>): (r: Role)
    ensures r == Goalie <==> p.primaryPosition.positionType.Some? && p.primaryPosition.positionType.value == GoalieType
  {
    if p.primaryPosition.positionType != Some(GoalieType) then Skater else Goalie
  }

  /** A split is kept only when its league name is exactly the National Hockey League. */
  predicate IsNhl<V>(s: SeasonSplit<V>)
    ensures IsNhl(s) <==> s.league.name.Some? && s.league.name.value == NationalHockeyLeague
  {
    s.league.name == Some(NationalHockeyLeague)
  }

  /** The text of every column of one row: player id, season, then the role's stats. */
  function StatFields<V>(role: Role, playerId: int, s: SeasonSplit<V>, render: V -> string): (f: seq<string>)
    ensures |f| == |StatKeys(role)| + 2 == (if role == Skater then 8 else 7)
    ensures Clean(f[0]) && ParseInt(f[0]) == Some(playerId)
    ensures f[1] == Str(s.season, render)
    ensures forall k :: 0 <= k < |StatKeys(role)| ==> f[k + 2] == Str(Lookup(s.stat, StatKeys(role)[k]), render)
  {
    IntToStringClean(playerId);
    IntToStringRoundTrip(playerId);
    [IntToString(playerId), Str(s.season, render)]
      + seq(|StatKeys(role)|, k requires 0 <= k < |StatKeys(role)| => Str(Lookup(s.stat, StatKeys(role)[k]), render))
  }

  /** One stats row: the columns joined by commas, then a line break. */
  function StatRow<V>(role: Role, playerId: int, s: SeasonSplit<V>, render: V -> string): (row: string)
    ensures ('\n' !in Str(s.season, render)
             && forall k :: 0 <= k < |StatKeys(role)| ==> '\n' !in Str(Lookup(s.stat, StatKeys(role)[k]), render))
            ==> IsLine(row)
  {
    var f := StatFields(role, playerId, s, render);
    assert ('\n' !in f[1] && forall k :: 2 <= k < |f| ==> '\n' !in f[k]) ==> IsLine(JoinRow(f)) by {
      if '\n' !in f[1] && forall k :: 2 <= k < |f| ==> '\n' !in f[k] {
        JoinRowLine(f);
      }
    }
    JoinRow(f)
  }

  /** The National Hockey League splits, in their original order. */
  function NhlSplits<V>(splits: seq<SeasonSplit<V>>): (r: seq<SeasonSplit<V>>)
    ensures |r| <= |splits|
    ensures forall i :: 0 <= i < |r| ==> IsNhl(r[i]) && r[i] in splits
    ensures forall i :: 0 <= i < |splits| && IsNhl(splits[i]) ==> splits[i] in r
    decreases |splits|
  {
    if |splits| == 0 then []
    else (if IsNhl(splits[0]) then [splits[0]] else []) + NhlSplits(splits[1..])
  }

  /**
   * The loop over one player's splits: a row for each split that passes the
   * league test and nothing for the others. The rows are exactly the rows of
   * the National Hockey League splits, one each, in split order.
   */
  function SplitRows<V>(role: Role, playerId: int, splits: seq<SeasonSplit<V>>, render: V -> string): (rows: seq<string>)
    ensures |rows| == |NhlSplits(splits)|
    ensures forall i :: 0 <= i < |rows| ==> rows[i] == StatRow(role, playerId, NhlSplits(splits)[i], render)
    decreases |splits|
  {
    if |splits| == 0 then []
    else
      (if IsNhl(splits[0]) then [StatRow(role, playerId, splits[0], render)] else [])
        + SplitRows(role, playerId, splits[1..], render)
  }

  /** Every player id has a record with at least one stats block (the code fails otherwise). */
  predicate HasStats<V>(playerIds: seq<int>, people: map<int, Player<V>>) {
    forall i :: 0 <= i < |playerIds| ==> playerIds[i] in people && |people[playerIds[i]].stats| > 0
  }

  /** The splits the code reads: those of the first stats block. */
  function PlayerSplits<V>(p: Player<V>): seq<SeasonSplit<V>>
    requires |p.stats| > 0
  {
    p.stats[0].splits
  }

  /** What `getPlayerStats` leaves behind: the lines of the skaters file and of the goalies file. */
  datatype StatsExport = StatsExport(skaters: seq<string>, goalies: seq<string>) {
    function Output(role: Role): seq<string> {
      match role
      case Skater => skaters
      case Goalie => goalies
    }
  }

  /** The number of National Hockey League splits over the listed players of one role. */
  function RowCount<V>(role: Role, playerIds: seq<int>, people: map<int, Player<V>>): nat
    requires HasStats(playerIds, people)
    decreases |playerIds|
  {
    if |playerIds| == 0 then 0
    else
      var p := people[playerIds[|playerIds| - 1]];
      RowCount(role, playerIds[..|playerIds| - 1], people)
        + (if RoleOf(p) == role then |NhlSplits(PlayerSplits(p))| else 0)
  }

  /**
   * Walks the players in order, appending each player's rows to the output of
   * the player's role. Each output is its header, then one row per National
   * Hockey League split of the players of that role.
   */
  function GetPlayerStats<V>(playerIds: seq<int>, people: map<int, Player<V>>, render: V -> string): (r: StatsExport)
    requires HasStats(playerIds, people)
    ensures |r.skaters| == RowCount(Skater, playerIds, people) + 1 && r.skaters[0] == SkatersHeader
    ensures |r.goalies| == RowCount(Goalie, playerIds, people) + 1 && r.goalies[0] == GoaliesHeader
    decreases |playerIds|
  {
    if |playerIds| == 0 then StatsExport([SkatersHeader], [GoaliesHeader])
    else
      var prev := GetPlayerStats(playerIds[..|playerIds| - 1], people, render);
      var playerId := playerIds[|playerIds| - 1];
      var p := people[playerId];
      var rows := SplitRows(RoleOf(p), playerId, PlayerSplits(p), render);
      if RoleOf(p) == Skater then StatsExport(prev.skaters + rows, prev.goalies)
      else StatsExport(prev.skaters, prev.goalies + rows)
  }

  /** Filtering a concatenation filters each part. */
  lemma {:induction false} NhlSplitsAppend<V>(a: seq<SeasonSplit<V>>, b: seq<SeasonSplit<V>>)
    ensures NhlSplits(a + b) == NhlSplits(a) + NhlSplits(b)
    decreases |a|
  {
    if |a| > 0 {
      assert (a + b)[1..] == a[1..] + b;
      NhlSplitsAppend(a[1..], b);
    } else {
      assert a + b == b;
    }
  }

  /** A player's rows depend on the player's splits only through the National Hockey League ones. */
  lemma SplitRowsOfNhl<V>(role: Role, playerId: int, s1: seq<SeasonSplit<V>>, s2: seq<SeasonSplit<V>>, render: V -> string)
    requires NhlSplits(s1) == NhlSplits(s2)
    ensures SplitRows(role, playerId, s1, render) == SplitRows(role, playerId, s2, render)
  {
  }

  /** A National Hockey League split is kept exactly once, in its place among the kept splits. */
  lemma NhlKeptInPlace<V>(a: seq<SeasonSplit<V>>, s: SeasonSplit<V>, b: seq<SeasonSplit<V>>)
    requires IsNhl(s)
    ensures NhlSplits(a + [s] + b) == NhlSplits(a) + [s] + NhlSplits(b)
  {
    NhlSplitsAppend(a + [s], b);
    NhlSplitsAppend(a, [s]);
    assert [s][1..] == [];
    assert NhlSplits([s]) == [s];
  }

  /** A split of any other league is dropped by the filter, wherever it sits among the splits. */
  lemma OtherLeagueDropped<V>(a: seq<SeasonSplit<V>>, s: SeasonSplit<V>, b: seq<SeasonSplit<V>>)
    requires !IsNhl(s)
    ensures NhlSplits(a + [s] + b) == NhlSplits(a + b)
  {
    NhlSplitsAppend(a + [s], b);
    NhlSplitsAppend(a, [s]);
    NhlSplitsAppend(a, b);
    assert NhlSplits([s]) == [];
  }

  /** A split of any other league adds no row, wherever it sits among the splits. */
  lemma OtherLeagueIgnored<V>(role: Role, playerId: int, a: seq<SeasonSplit<V>>, s: SeasonSplit<V>,
                              b: seq<SeasonSplit<V>>, render: V -> string)
    requires !IsNhl(s)
    ensures SplitRows(role, playerId, a + [s] + b, render) == SplitRows(role, playerId, a + b, render)
  {
    OtherLeagueDropped(a, s, b);
    SplitRowsOfNhl(role, playerId, a + [s] + b, a + b, render);
  }

  /** `line` is the row of some National Hockey League split of some listed player of role `role`. */
  predicate FromPlayerOfRole<V>(role: Role, playerIds: seq<int>, people: map<int, Player<V>>,
                                render: V -> string, line: string)
    requires HasStats(playerIds, people)
  {
    exists i, j :: 0 <= i < |playerIds| && RoleOf(people[playerIds[i]]) == role
                   && 0 <= j < |NhlSplits(PlayerSplits(people[playerIds[i]]))|
                   && line == StatRow(role, playerIds[i], NhlSplits(PlayerSplits(people[playerIds[i]]))[j], render)
  }

  /**
   * Every row after the header of an output comes from a National Hockey
   * League split of a player of that output's role: goalies never reach the
   * skaters file, skaters never reach the goalies file.
   */
  lemma {:induction false} RowsOfRole<V>(role: Role, playerIds: seq<int>, people: map<int, Player<V>>, render: V -> string)
    requires HasStats(playerIds, people)
    ensures forall k :: 1 <= k < |GetPlayerStats(playerIds, people, render).Output(role)| ==>
      FromPlayerOfRole(role, playerIds, people, render, GetPlayerStats(playerIds, people, render).Output(role)[k])
    decreases |playerIds|
  {
    if |playerIds| > 0 {
      var n := |playerIds|;
      var front := playerIds[..n - 1];
      var prev := GetPlayerStats(front, people, render).Output(role);
      var out := GetPlayerStats(playerIds, people, render).Output(role);
      var p := people[playerIds[n - 1]];
      RowsOfRole(role, front, people, render);
      forall k | 1 <= k < |out|
        ensures FromPlayerOfRole(role, playerIds, people, render, out[k])
      {
        if k < |prev| {
          assert FromPlayerOfRole(role, front, people, render, prev[k]);
          var i, j :| 0 <= i < |front| && RoleOf(people[front[i]]) == role
                      && 0 <= j < |NhlSplits(PlayerSplits(people[front[i]]))|
                      && prev[k] == StatRow(role, front[i], NhlSplits(PlayerSplits(people[front[i]]))[j], render);
          assert front[i] == playerIds[i];
        } else {
          var j := k - |prev|;
          assert RoleOf(p) == role;
          assert out[k] == StatRow(role, playerIds[n - 1], NhlSplits(PlayerSplits(p))[j], render);
        }
      }
    }
  }

  /**
   * Exporting two lists of players one after the other concatenates the rows
   * of each output: players contribute independently, in order.
   */
  lemma {:induction false} GetPlayerStatsAppend<V>(a: seq<int>, b: seq<int>, people: map<int, Player<V>>,
                                                   render: V -> string)
    requires HasStats(a + b, people)
    ensures HasStats(a, people) && HasStats(b, people)
    ensures GetPlayerStats(a + b, people, render).skaters
         == GetPlayerStats(a, people, render).skaters + GetPlayerStats(b, people, render).skaters[1..]
    ensures GetPlayerStats(a + b, people, render).goalies
         == GetPlayerStats(a, people, render).goalies + GetPlayerStats(b, people, render).goalies[1..]
    decreases |b|
  {
    HasStatsParts(a, b, people);
    if |b| > 0 {
      var n := |b|;
      var front := b[..n - 1];
      var last := b[n - 1];
      assert (a + b)[..|a + b| - 1] == a + front;
      assert (a + b)[|a + b| - 1] == last;
      HasStatsParts(a + front, [last], people);
      GetPlayerStatsAppend(a, front, people, render);
      GetPlayerStatsStep(a + b, people, render);
      GetPlayerStatsStep(b, people, render);
      var p := people[last];
      var rows := SplitRows(RoleOf(p), last, PlayerSplits(p), render);
      var left := GetPlayerStats(a, people, render);
      var rightFront := GetPlayerStats(front, people, render);
      MoveTail(left.skaters, rightFront.skaters, if RoleOf(p) == Skater then rows else []);
      MoveTail(left.goalies, rightFront.goalies, if RoleOf(p) == Goalie then rows else []);
    } else {
      assert a + b == a;
    }
  }

  /** The last player's rows go to the output of that player's role. */
  lemma GetPlayerStatsStep<V>(playerIds: seq<int>, people: map<int, Player<V>>, render: V -> string)
    requires HasStats(playerIds, people) && |playerIds| > 0
    ensures var n := |playerIds|;
      var prev := GetPlayerStats(playerIds[..n - 1], people, render);
      var p := people[playerIds[n - 1]];
      var rows := SplitRows(RoleOf(p), playerIds[n - 1], PlayerSplits(p), render);
      && GetPlayerStats(playerIds, people, render).skaters == prev.skaters + (if RoleOf(p) == Skater then rows else [])
      && GetPlayerStats(playerIds, people, render).goalies == prev.goalies + (if RoleOf(p) == Goalie then rows else [])
  {
  }

  /** Both parts of a player list whose records are all present have their records present. */
  lemma HasStatsParts<V>(a: seq<int>, b: seq<int>, people: map<int, Player<V>>)
    requires HasStats(a + b, people)
    ensures HasStats(a, people) && HasStats(b, people)
  {
    assert forall i :: 0 <= i < |a| ==> a[i] == (a + b)[i];
    assert forall i :: 0 <= i < |b| ==> b[i] == (a + b)[|a| + i];
  }

  /**
   * One player, inserted anywhere in the list, adds its split rows to the
   * output of its own role, at that place, and leaves the other output exactly
   * as it was.
   */
  lemma PlayerContribution<V>(a: seq<int>, playerId: int, b: seq<int>, people: map<int, Player<V>>,
                              render: V -> string, role: Role)
    requires HasStats(a + [playerId] + b, people)
    ensures HasStats(a, people) && HasStats(b, people) && HasStats(a + b, people)
    ensures playerId in people && |people[playerId].stats| > 0
    ensures var p := people[playerId];
      GetPlayerStats(a + [playerId] + b, people, render).Output(role)
      == GetPlayerStats(a, people, render).Output(role)
         + (if RoleOf(p) == role then SplitRows(role, playerId, PlayerSplits(p), render) else [])
         + GetPlayerStats(b, people, render).Output(role)[1..]
    ensures RoleOf(people[playerId]) != role ==>
      GetPlayerStats(a + [playerId] + b, people, render).Output(role) == GetPlayerStats(a + b, people, render).Output(role)
  {
    var ab := a + [playerId] + b;
    assert ab[|a|] == playerId;
    assert HasStats(a + b, people) by {
      assert forall i :: 0 <= i < |a| ==> (a + b)[i] == ab[i];
      assert forall i :: |a| <= i < |a + b| ==> (a + b)[i] == ab[i + 1];
    }
    GetPlayerStatsAppend(a + [playerId], b, people, render);
    GetPlayerStatsAppend(a, [playerId], people, render);
    GetPlayerStatsAppend(a, b, people, render);
    assert [playerId][..0] == [];
  }

  /** Two feeds that agree on every listed player's role and league splits give the same files. */
  lemma {:induction false} OnlyNhlSplitsMatter<V>(playerIds: seq<int>, people1: map<int, Player<V>>,
                                                  people2: map<int, Player<V>>, render: V -> string)
    requires HasStats(playerIds, people1) && HasStats(playerIds, people2)
    requires forall i :: 0 <= i < |playerIds| ==> RoleOf(people1[playerIds[i]]) == RoleOf(people2[playerIds[i]])
    requires forall i :: 0 <= i < |playerIds| ==>
      NhlSplits(PlayerSplits(people1[playerIds[i]])) == NhlSplits(PlayerSplits(people2[playerIds[i]]))
    ensures GetPlayerStats(playerIds, people1, render) == GetPlayerStats(playerIds, people2, render)
    decreases |playerIds|
  {
    if |playerIds| > 0 {
      var n := |playerIds|;
      OnlyNhlSplitsMatter(playerIds[..n - 1], people1, people2, render);
      var pid := playerIds[n - 1];
      SplitRowsOfNhl(RoleOf(people1[pid]), pid, PlayerSplits(people1[pid]), PlayerSplits(people2[pid]), render);
    }
  }

  /** The National Hockey League splits over all listed players. */
  function NhlTotal<V>(playerIds: seq<int>, people: map<int, Player<V>>): nat
    requires HasStats(playerIds, people)
    decreases |playerIds|
  {
    if |playerIds| == 0 then 0
    else NhlTotal(playerIds[..|playerIds| - 1], people) + |NhlSplits(PlayerSplits(people[playerIds[|playerIds| - 1]]))|
  }

  /** Every National Hockey League split of every listed player gives exactly one row, in exactly one of the two files. */
  lemma {:induction false} RowCountPartition<V>(playerIds: seq<int>, people: map<int, Player<V>>, render: V -> string)
    requires HasStats(playerIds, people)
    ensures |GetPlayerStats(playerIds, people, render).skaters| - 1
          + |GetPlayerStats(playerIds, people, render).goalies| - 1
         == NhlTotal(playerIds, people)
    decreases |playerIds|
  {
    if |playerIds| > 0 {
      RowCountPartition(playerIds[..|playerIds| - 1], people, render);
    }
  }

  /**
   * Every row starts with the player's id and the split's season, and its
   * first field reads back as the player's id.
   */
  lemma StatRowStart<V>(role: Role, playerId: int, s: SeasonSplit<V>, render: V -> string)
    ensures StatRow(role, playerId, s, render)
         == IntToString(playerId) + "," + Str(s.season, render) + ","
            + Join(StatFields(role, playerId, s, render)[2..], ',') + "\n"
    ensures |Fields(StatRow(role, playerId, s, render))| >= 2
    ensures ParseInt(Fields(StatRow(role, playerId, s, render))[0]) == Some(playerId)
    ensures ',' !in Str(s.season, render) ==> Fields(StatRow(role, playerId, s, render))[1] == Str(s.season, render)
  {
    var f := StatFields(role, playerId, s, render);
    JoinFirstTwo(f, ',');
    IntToStringClean(playerId);
    IntToStringRoundTrip(playerId);
    LeadingFields(f[0], f[1], Join(f[2..], ','));
  }

  /**
   * A row whose values render without commas or line breaks reads back as its
   * columns: 8 for a skater, 7 for a goalie, the player id first and the season second.
   */
  lemma StatRowFields<V>(role: Role, playerId: int, s: SeasonSplit<V>, render: V -> string)
    requires Clean(Str(s.season, render))
    requires forall k :: 0 <= k < |StatKeys(role)| ==> Clean(Str(Lookup(s.stat, StatKeys(role)[k]), render))
    ensures Fields(StatRow(role, playerId, s, render)) == StatFields(role, playerId, s, render)
    ensures |Fields(StatRow(role, playerId, s, render))| == (if role == Skater then 8 else 7)
    ensures Fields(StatRow(role, playerId, s, render))[0] == IntToString(playerId)
    ensures Fields(StatRow(role, playerId, s, render))[1] == Str(s.season, render)
  {
    var f := StatFields(role, playerId, s, render);
    IntToStringClean(playerId);
    assert forall i :: 2 <= i < |f| ==> f[i] == Str(Lookup(s.stat, StatKeys(role)[i - 2]), render);
    JoinRowFields(f);
  }
}
