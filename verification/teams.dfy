/** The team exporter, `getTeams`: the teams file and the list of team ids. */
module Teams {
  import opened Wrappers
  import opened Text
  import opened Records

  const Header: string := "team_id,team_name \n"

  /** The teams-file row of one team: its id, a comma, its name. */
  function TeamRow(t: Team): (row: string)
    ensures '\n' !in t.name ==> IsLine(row) && StripNewline(row) == IntToString(t.id) + "," + t.name
  {
    var text := IntToString(t.id) + "," + t.name;
    assert '\n' !in t.name ==> IsLine(text + "\n") && StripNewline(text + "\n") == text by {
      if '\n' !in t.name {
        IntToStringClean(t.id);
        assert '\n' !in text;
        LineText(text);
      }
    }
    text + "\n"
  }

  /** What `getTeams` leaves behind: the lines of the teams file and the returned ids. */
  datatype TeamsExport = TeamsExport(lines: seq<string>, ids: seq<int>)

  /**
   * The header, then one row per team in feed order; the ids are the teams'
   * ids in the same order, neither sorted nor deduplicated.
   */
  function GetTeams(teams: seq<Team>): (r: TeamsExport)
    ensures |r.lines| == |teams| + 1 && r.lines[0] == Header
    ensures |r.ids| == |teams|
    ensures forall i :: 0 <= i < |teams| ==> r.lines[i + 1] == TeamRow(teams[i])
    ensures forall i :: 0 <= i < |teams| ==> r.ids[i] == teams[i].id
    decreases |teams|
  {
    if |teams| == 0 then TeamsExport([Header], [])
    else
      var prev := GetTeams(teams[..|teams| - 1]);
      var t := teams[|teams| - 1];
      assert forall i :: 0 <= i < |teams| - 1 ==> teams[..|teams| - 1][i] == teams[i];
      TeamsExport(prev.lines + [TeamRow(t)], prev.ids + [t.id])
  }

  /** Reads a teams-file row back into a team. */
  function ParseTeamRow(line: string): Option<Team> {
    var f := Fields(line);
    if |f| == 2 && ParseInt(f[0]).Some? then Some(Team(ParseInt(f[0]).value, f[1])) else None
  }

  /** A team row always starts with the team's id, whatever the name holds. */
  lemma TeamRowId(t: Team)
    ensures ParseInt(Fields(TeamRow(t))[0]) == Some(t.id)
  {
    assert TeamRow(t) == IntToString(t.id) + "," + t.name + "\n";
    LeadingField(IntToString(t.id), t.name);
    IntToStringRoundTrip(t.id);
  }

  /** A team whose name has no comma or line break reads back from its row unchanged. */
  lemma TeamRowRoundTrip(t: Team)
    requires Clean(t.name)
    ensures Fields(TeamRow(t)) == [IntToString(t.id), t.name]
    ensures ParseTeamRow(TeamRow(t)) == Some(t)
  {
    var f := [IntToString(t.id), t.name];
    assert f[1..] == [t.name];
    assert Join(f[1..], ',') == t.name;
    assert Join(f, ',') == IntToString(t.id) + [','] + t.name;
    assert TeamRow(t) == JoinRow(f);
    JoinRowFields([IntToString(t.id), t.name]);
    IntToStringRoundTrip(t.id);
  }

  /** The whole teams file, read back line by line: the header text, then one row text per team. */
  lemma TeamsFileLines(teams: seq<Team>)
    requires forall i :: 0 <= i < |teams| ==> '\n' !in teams[i].name
    ensures |SplitOn(Content(GetTeams(teams).lines), '\n')| == |teams| + 2
    ensures SplitOn(Content(GetTeams(teams).lines), '\n')[0] == "team_id,team_name "
    ensures forall i :: 0 <= i < |teams| ==>
      SplitOn(Content(GetTeams(teams).lines), '\n')[i + 1] == IntToString(teams[i].id) + "," + teams[i].name
  {
    var lines := GetTeams(teams).lines;
    forall k | 0 <= k < |lines|
      ensures IsLine(lines[k])
      ensures k == 0 ==> StripNewline(lines[k]) == "team_id,team_name "
      ensures k > 0 ==> StripNewline(lines[k]) == IntToString(teams[k - 1].id) + "," + teams[k - 1].name
    {
      if k > 0 {
        assert lines[k] == TeamRow(teams[k - 1]);
      } else {
        assert lines[k] == "team_id,team_name " + "\n";
        LineText("team_id,team_name ");
      }
    }
    ContentLines(lines);
  }
}
