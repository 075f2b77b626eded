# NHL stats exporter, modelled in Dafny

The exporter reads three kinds of feed from the NHL statistics service and writes
comma-separated text files:

- `getTeams` writes `teams.txt` (a header, then one `team_id,team_name` row per
  team) and returns the team ids in feed order;
- `getPlayers` walks those ids, fetches each team's roster and writes
  `players.txt` (one row per roster entry: player id, team id, full name,
  position type, position abbreviation), returning the player ids in the order
  written, duplicates included;
- `getPlayerStats` fetches each player's year-by-year splits and writes one row
  per National Hockey League split, to `skaters_stats.txt` unless the player's
  primary position type is exactly `"Goalie"`, in which case it goes to
  `goalie_stats.txt`.

The model turns each of the three into a pure function over already-fetched,
typed feed data:

- `Teams.GetTeams` takes the team list;
- `Players.GetPlayers` takes the team ids and a map from team id to roster;
- `Stats.GetPlayerStats` takes the player ids and a map from player id to
  player record.

Each function returns the lines of the file or files it writes, header first,
together with the id list where the source returns one. `Text.Content`
concatenates the lines into the file text.

Python's `str` of an integer id is modelled as a real decimal rendering,
`Text.IntToString`, and `Text.ParseInt` is proved to be its inverse. Stat values
are of any type `V`, rendered by a caller-supplied `render: V -> string`. A key
absent from a record (`dict.get` giving `None`) becomes `Option.None`, and it
renders as the text `None`, as Python's `str(None)` does.

Modules:

| file | module | content |
|---|---|---|
| wrappers.dfy | `Wrappers` | `Option` |
| text.dfy | `Text` | decimal rendering and parsing, joining and splitting on a separator, rows and file content |
| records.dfy | `Records` | the feed records: team, roster entry, player, stats block, split, league |
| teams.dfy | `Teams` | `getTeams` |
| players.dfy | `Players` | `getPlayers` |
| stats.dfy | `Stats` | `getPlayerStats` |
| examples.dfy | `Examples` | small concrete feeds and the exact rows they give |

## Model

| member | source | states |
|---|---|---|
| Text.IntToString | src/get_stats.py:26 | `str` of an id is decimal digits, with a leading `-` exactly when the id is negative; there is at least one digit, and no leading zero except for the id 0 itself |
| Text.NatToStringRoundTrip | src/get_stats.py:26 | reading the digits of a non-negative id back gives the id |
| Text.IntToStringRoundTrip | src/get_stats.py:44 | reading the text of any id, negative ones included, back gives the id |
| Text.IntToStringInjective | src/get_stats.py:44 | two different ids never get the same text, so the id column tells ids apart |
| Text.IntToStringClean | src/get_stats.py:78 | the text of an id never contains a comma or a line break, so it cannot shift the columns of a row |
| Text.SplitJoin | src/get_stats.py:44-48 | columns without commas, joined by commas, split back into the same columns |
| Text.JoinRowFields | src/get_stats.py:78-85 | a row written from clean columns reads back as exactly those columns |
| Text.ContentLines | src/get_stats.py:19-29 | a file written as a sequence of newline-terminated lines splits on line breaks into those lines, with an empty piece after the last one |
| Teams.TeamRow | src/get_stats.py:26 | a team row is one line of the file, holding the id text, a comma and the name, whenever the name has no line break |
| Teams.GetTeams | src/get_stats.py:13-30 | the teams file is the header followed by one row per team, in feed order, and the returned ids are the teams' ids in the same order |
| Teams.TeamRowId | src/get_stats.py:24-26 | the first column of a team row reads back as the team's id, whatever the name holds |
| Teams.TeamRowRoundTrip | src/get_stats.py:26 | a team whose name has no comma or line break is recovered exactly from its row |
| Teams.TeamsFileLines | src/get_stats.py:19-29 | the text of the teams file has the header line and then one line per team giving its id and name, in order |
| Players.PlayerFields | src/get_stats.py:44-48 | a player row has five columns: the player id and the team id, both free of commas and line breaks and reading back as the ids, then the full name, the position type and the abbreviation |
| Players.PlayerRow | src/get_stats.py:44-48 | a player row is one line of the file whenever the name and position texts have no line break |
| Players.PerEntry | src/get_stats.py:39-50 | the traversal of teams and rosters yields one value per roster entry, so the total count is the sum of the roster sizes |
| Players.GetPlayers | src/get_stats.py:32-53 | the players file starts with its header and has exactly one row per returned id, and there is one id per roster entry over all listed teams |
| Players.PerEntryPlacement | src/get_stats.py:39-41 | entry `j` of the roster of the `i`-th team is visited after every entry of the earlier teams, at position `j` after them |
| Players.PerEntrySlot | src/get_stats.py:39-41 | every position of the traversal belongs to some entry of some listed team's roster |
| Players.PerEntryAppend | src/get_stats.py:39-41 | traversing two team lists one after the other gives the values of the first followed by those of the second |
| Players.PlayerPlacement | src/get_stats.py:42-50 | an entry's id and its row land at the same position of the id list and of the file, the row naming the entry's team |
| Players.RosterSizesPrefix | src/get_stats.py:39 | fewer leading teams never account for more roster entries |
| Players.PlayerOrder | src/get_stats.py:39-41 | an entry of an earlier team, or an earlier entry of the same roster, is written strictly before a later one |
| Players.DuplicatesKept | src/get_stats.py:50 | a player who appears twice in the rosters appears at two distinct positions of the returned ids |
| Players.GetPlayersAppend | src/get_stats.py:32-53 | exporting two team lists in sequence gives the concatenated ids, and the rows of the second follow those of the first under a single header |
| Players.RowsFromRosters | src/get_stats.py:42-50 | every returned id and its row come from one roster entry of one listed team, and the row carries that team's id |
| Players.PlayerRowIds | src/get_stats.py:44 | the first two columns of a player row read back as the player's id and the team's id, whatever the name and position texts hold |
| Players.PlayerRowFields | src/get_stats.py:44-48 | a row whose texts are clean reads back as exactly its five columns |
| Records.Lookup | src/get_stats.py:80 | `.get` on a stat record gives a value exactly when the key is present, and then the value stored under it |
| Records.Str | src/get_stats.py:79-85 | `str` of an absent value writes the text `None`, and of a present value its rendering |
| Stats.RoleOf | src/get_stats.py:71 | a player is a goalie exactly when its primary position type is present and equal to `Goalie`; an absent type or any other text makes a skater |
| Stats.IsNhl | src/get_stats.py:77 | a split passes the league test exactly when its league name is present and equal to `National Hockey League` |
| Stats.StatFields | src/get_stats.py:78-85 | a stats row has the player id (clean, reading back as the id), the season, then one column per stat key of the role: 8 columns for a skater, 7 for a goalie |
| Stats.StatRow | src/get_stats.py:96-102 | a stats row is one line of its file whenever the season and the stat values render without line breaks |
| Stats.NhlSplits | src/get_stats.py:76-77 | every kept split is a National Hockey League split of the input, every National Hockey League split of the input is kept, and nothing is added |
| Stats.NhlKeptInPlace | src/get_stats.py:76-77 | a National Hockey League split is kept exactly once, after the kept splits before it and before the kept splits after it, wherever it sits |
| Stats.SplitRows | src/get_stats.py:76-86 | a player gives one row per National Hockey League split, in the order of the splits |
| Stats.GetPlayerStats | src/get_stats.py:55-106 | each of the two files starts with its header, followed by as many rows as the listed players of its role have National Hockey League splits |
| Stats.NhlSplitsAppend | src/get_stats.py:76-77 | filtering the splits distributes over concatenation |
| Stats.OtherLeagueDropped | src/get_stats.py:77 | the filter drops a split of any other league wherever it sits, and keeps the others in place |
| Stats.OtherLeagueIgnored | src/get_stats.py:77 | a split of any other league adds no row, wherever it sits among the splits |
| Stats.RowsOfRole | src/get_stats.py:71-103 | every row of the skaters file comes from a listed skater's National Hockey League split, and every row of the goalies file from a listed goalie's |
| Stats.GetPlayerStatsAppend | src/get_stats.py:65-103 | exporting two player lists in sequence gives, in each file, the rows of the first list followed by those of the second |
| Stats.PlayerContribution | src/get_stats.py:71-103 | inserting one player into the list inserts that player's rows into the file of the player's role at the matching place, and leaves the other file unchanged |
| Stats.OnlyNhlSplitsMatter | src/get_stats.py:71-103 | two feeds that agree on every listed player's role and National Hockey League splits give the same two files |
| Stats.RowCountPartition | src/get_stats.py:65-103 | the rows of the two files together number exactly the National Hockey League splits of all listed players: each goes to exactly one file |
| Stats.StatRowStart | src/get_stats.py:78-79 | a stats row starts with the player id and the season, and its first column reads back as the player id |
| Stats.StatRowFields | src/get_stats.py:78-85 | a row whose values render cleanly reads back as its columns: 8 for a skater, 7 for a goalie |
| Examples.OneTeam | src/get_stats.py:20-27 | a one-team feed gives the file text `team_id,team_name \n1,Team A\n` and the ids `[1]` |
| Examples.OneRosterEntry | src/get_stats.py:44-48 | a roster entry of team 1 gives the row of columns `10`, `1`, `Jane Doe`, `Forward`, `LW` |
| Examples.SharedPlayer | src/get_stats.py:39-50 | a player on two rosters is listed once per roster, in team order |
| Examples.GoalieFields | src/get_stats.py:96-102 | a goaltender's split gives the columns id, season, games, wins, losses, overtime losses, shutouts |
| Examples.GoalieSeason | src/get_stats.py:71-103 | a goaltender's National Hockey League split goes to the goalies file only |
| Examples.GoalieOtherLeague | src/get_stats.py:95 | a goaltender's split from another league gives no row in either file |
| Examples.SkaterFields | src/get_stats.py:78-85 | a stat missing from a skater's split is written as `None` |
| Examples.SkaterSplitRows | src/get_stats.py:76-86 | a skater's splits from other leagues are skipped and the National Hockey League one is written |
| Examples.SkaterSeasons | src/get_stats.py:71-86 | a player without a primary position type is treated as a skater: the National Hockey League split goes to the skaters file, the goalies file keeps only its header |

## Left out

- `getFeed` (lines 5-11), the HTTP request and the JSON decoding: the feeds are inputs of the model functions.
- Opening, writing and closing the files: each file is its sequence of lines, and `Text.Content` gives its text.
- `main` (lines 108-117) and its progress messages: the model functions compose in the same way, with the ids of one passed to the next.
- Python's `str` of stat values, seasons and texts is the `render` parameter. Number formatting of floats and similar details are the caller's choice of `render`.
- Crashes on missing data are preconditions, not error results. A team id without a roster is excluded by `Players.HasRosters`. A player id without a record, or a record with no stats block, is excluded by `Stats.HasStats`. Records without a `person`, `position`, `primaryPosition`, `league` or `stat` object, or a stats block without `splits`, or whose name text is not a string, cannot be built from the typed records. A roster entry's name and position texts are therefore always strings.
- Ids are integers. The code reads team and player ids with `.get`, so a record without an id would write `None` in the id column and pass `None` on to the next exporter. The records of the model always carry an id.
- Teams.GetTeams: a feed with no `teams` field is not modelled. The program iterates over `None` at line 23 and fails. A reading of the feed as an empty team list, which would give a file with only the header, is not what the code does, and the model follows the code.
- Stats.GetPlayerStats: the goalie branch reads the stats with subscripts (line 91) where the skater branch uses `.get` (line 73). The two behave differently only when a key is missing, which the preconditions exclude.
- Stats.RowsOfRole and Stats.OnlyNhlSplitsMatter speak of rendered rows. Whether two rows are equal as texts depends on `render`, which the model does not constrain.
