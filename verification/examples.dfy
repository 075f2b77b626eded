/** Worked examples: concrete feeds and the exact text the exporters write for them. */
module Examples {
  import opened Wrappers
  import opened Text
  import opened Records
  import Teams
  import Players
  import Stats

  /** JSON scalars as the stats feed sends them. */
  datatype Scalar = IntValue(i: int) | StringValue(s: string)

  /** Python's `str` on those scalars: an int in decimal, a string unchanged. */
  function Render(v: Scalar): string {
    match v
    case IntValue(i) => IntToString(i)
    case StringValue(s) => s
  }

  /** One team in the feed: the header, its row, and its id. */
  lemma OneTeam()
    ensures Content(Teams.GetTeams([Team(1, "Team A")]).lines) == "team_id,team_name \n1,Team A\n"
    ensures Teams.GetTeams([Team(1, "Team A")]).ids == [1]
  {
  }

  /** A roster entry of team 1 and its row. */
  lemma OneRosterEntry()
    ensures Players.PlayerRow(RosterEntry(Person(10, "Jane Doe"), Position("Forward", "LW")), 1)
         == JoinRow(["10", "1", "Jane Doe", "Forward", "LW"])
  {
    assert IntToString(10) == "10" && IntToString(1) == "1";
  }

  /** Two teams sharing a player: the player is listed once per roster, in team order. */
  lemma SharedPlayer()
    ensures var jane := RosterEntry(Person(10, "Jane Doe"), Position("Forward", "LW"));
      var sam := RosterEntry(Person(11, "Sam Roe"), Position("Defenseman", "D"));
      Players.GetPlayers([1, 2], map[1 := [jane, sam], 2 := [jane]]).ids == [10, 11, 10]
  {
    var jane := RosterEntry(Person(10, "Jane Doe"), Position("Forward", "LW"));
    var sam := RosterEntry(Person(11, "Sam Roe"), Position("Defenseman", "D"));
    var rosters := map[1 := [jane, sam], 2 := [jane]];
    assert [1][..0] == [] && [2][..0] == [];
    assert rosters[1] == [jane, sam];
    assert Players.PerEntry([1], rosters, Players.EntryId)
        == [] + seq(2, m requires 0 <= m < 2 => Players.EntryId(rosters[1][m], 1));
    assert Players.PerEntry([1], rosters, Players.EntryId) == [10, 11];
    assert Players.PerEntry([2], rosters, Players.EntryId) == [10];
    assert [1] + [2] == [1, 2];
    Players.PerEntryAppend([1], [2], rosters, Players.EntryId);
  }

  /** A goaltender's season in the given league, with every goalie stat present. */
  function GoalieSplit(league: string): SeasonSplit<Scalar> {
    SeasonSplit(Some(StringValue("20202021")), League(Some(league)),
                map["games" := IntValue(20), "wins" := IntValue(12), "losses" := IntValue(5),
                    "ot_losses" := IntValue(2), "shutouts" := IntValue(3)])
  }

  /** A player whose primary position type is "Goalie", with that one split. */
  function Goaltender(league: string): Player<Scalar> {
    Player(PrimaryPosition(Some("Goalie")), [StatsBlock([GoalieSplit(league)])])
  }

  /** The columns of the goaltender's split: id, season, games, wins, losses, overtime losses, shutouts. */
  lemma GoalieFields()
    ensures Stats.StatFields(Stats.Goalie, 30, GoalieSplit("National Hockey League"), Render)
         == ["30", "20202021", "20", "12", "5", "2", "3"]
  {
    var split := GoalieSplit("National Hockey League");
    assert IntToString(30) == "30" && IntToString(20) == "20" && IntToString(12) == "12";
    assert IntToString(5) == "5" && IntToString(2) == "2" && IntToString(3) == "3";
    assert Lookup(split.stat, "games") == Some(IntValue(20));
    assert Lookup(split.stat, "wins") == Some(IntValue(12));
    assert Lookup(split.stat, "losses") == Some(IntValue(5));
    assert Lookup(split.stat, "ot_losses") == Some(IntValue(2));
    assert Lookup(split.stat, "shutouts") == Some(IntValue(3));
  }

  /** A goaltender's National Hockey League season becomes one goalies row and no skaters row. */
  lemma GoalieSeason()
    ensures Stats.GetPlayerStats([30], map[30 := Goaltender("National Hockey League")], Render)
         == Stats.StatsExport([Stats.SkatersHeader], [Stats.GoaliesHeader, JoinRow(["30", "20202021", "20", "12", "5", "2", "3"])])
  {
    var split := GoalieSplit("National Hockey League");
    assert Stats.RoleOf(Goaltender("National Hockey League")) == Stats.Goalie;
    GoalieFields();
    assert Stats.SplitRows(Stats.Goalie, 30, [split], Render) == [JoinRow(["30", "20202021", "20", "12", "5", "2", "3"])];
    assert [30][..0] == [];
  }

  /** The same season in another league writes nothing. */
  lemma GoalieOtherLeague()
    ensures Stats.GetPlayerStats([30], map[30 := Goaltender("Kontinental Hockey League")], Render)
         == Stats.StatsExport([Stats.SkatersHeader], [Stats.GoaliesHeader])
  {
  }

  /** A skater's season in the given league; the feed left out `timeOnIce`. */
  function SkaterSplit(league: string): SeasonSplit<Scalar> {
    SeasonSplit(Some(StringValue("20152016")), League(Some(league)),
                map["games" := IntValue(45), "points" := IntValue(16), "goals" := IntValue(8),
                    "assists" := IntValue(8), "shots" := IntValue(70)])
  }

  /** The columns of the skater's split, the missing `timeOnIce` written as "None". */
  lemma SkaterFields()
    ensures Stats.StatFields(Stats.Skater, 8, SkaterSplit("National Hockey League"), Render)
         == ["8", "20152016", "45", "None", "16", "8", "8", "70"]
  {
    var split := SkaterSplit("National Hockey League");
    assert IntToString(8) == "8" && IntToString(45) == "45" && IntToString(16) == "16" && IntToString(70) == "70";
    assert Lookup(split.stat, "games") == Some(IntValue(45));
    assert Lookup(split.stat, "timeOnIce") == None;
    assert Lookup(split.stat, "points") == Some(IntValue(16));
    assert Lookup(split.stat, "goals") == Some(IntValue(8));
    assert Lookup(split.stat, "assists") == Some(IntValue(8));
    assert Lookup(split.stat, "shots") == Some(IntValue(70));
  }

  /** Of a minor-league split followed by a National Hockey League one, only the second gives a row. */
  lemma SkaterSplitRows()
    ensures Stats.SplitRows(Stats.Skater, 8, [SkaterSplit("American Hockey League"), SkaterSplit("National Hockey League")], Render)
         == [JoinRow(["8", "20152016", "45", "None", "16", "8", "8", "70"])]
  {
    var split := SkaterSplit("National Hockey League");
    var other := SkaterSplit("American Hockey League");
    assert !Stats.IsNhl(other) && Stats.IsNhl(split);
    assert [other, split][1..] == [split];
    SkaterFields();
  }

  /**
   * A player with no primary position type is a skater; the minor-league split
   * is dropped, and the stat missing from the National Hockey League split is
   * written as "None".
   */
  lemma SkaterSeasons()
    ensures Stats.GetPlayerStats([8], map[8 := Player(PrimaryPosition(None),
              [StatsBlock([SkaterSplit("American Hockey League"), SkaterSplit("National Hockey League")])])], Render)
         == Stats.StatsExport([Stats.SkatersHeader, JoinRow(["8", "20152016", "45", "None", "16", "8", "8", "70"])], [Stats.GoaliesHeader])
  {
    SkaterSplitRows();
    assert [8][..0] == [];
  }
}
