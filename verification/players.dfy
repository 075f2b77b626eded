/** The roster exporter, `getPlayers`: the players file and the flat list of player ids. */
module Players {
  import opened Wrappers
  import opened Text
  import opened Records

  const Header: string := "playerID,team_id,fullName,posType,position \n"

  /** The five columns written for one roster entry of team `team`. */
  function PlayerFields(e: RosterEntry, team: int): (f: seq<string>)
    ensures |f| == 5
    ensures Clean(f[0]) && ParseInt(f[0]) == Some(e.person.id)
    ensures Clean(f[1]) && ParseInt(f[1]) == Some(team)
    ensures f[2..] == [e.person.fullName, e.position.positionType, e.position.abbreviation]
  {
    IntToStringClean(e.person.id);
    IntToStringClean(team);
    IntToStringRoundTrip(e.person.id);
    IntToStringRoundTrip(team);
    [IntToString(e.person.id), IntToString(team), e.person.fullName,
     e.position.positionType, e.position.abbreviation]
  }

  /** The players-file row of one roster entry of team `team`. */
  function PlayerRow(e: RosterEntry, team: int): (row: string)
    ensures '\n' !in e.person.fullName && '\n' !in e.position.positionType && '\n' !in e.position.abbreviation
            ==> IsLine(row)
  {
    var f := PlayerFields(e, team);
    assert '\n' !in f[2] && '\n' !in f[3] && '\n' !in f[4] ==> IsLine(JoinRow(f)) by {
      if '\n' !in f[2] && '\n' !in f[3] && '\n' !in f[4] {
        JoinRowLine(f);
      }
    }
    JoinRow(f)
  }

  /** Every team id has a roster in the feed (the code fails on a missing one). */
  predicate HasRosters(teamIds: seq<int>, rosters: map<int, seq<RosterEntry>>) {
    forall i :: 0 <= i < |teamIds| ==> teamIds[i] in rosters
  }

  /** The number of roster entries over the listed teams, a team listed twice counted twice. */
  function RosterSizes(teamIds: seq<int>, rosters: map<int, seq<RosterEntry>>): nat
    requires HasRosters(teamIds, rosters)
    decreases |teamIds|
  {
    if |teamIds| == 0 then 0
    else RosterSizes(teamIds[..|teamIds| - 1], rosters) + |rosters[teamIds[|teamIds| - 1]]|
  }

  /** The person id collected for one roster entry (the team is not part of it). */
  function EntryId(e: RosterEntry, team: int): int {
    e.person.id
  }

  /**
   * One value per roster entry, teams in the listed order and each roster in
   * its own order: the traversal shared by the players file and the id list.
   */
  function PerEntry<T>(teamIds: seq<int>, rosters: map<int, seq<RosterEntry>>, f: (RosterEntry, int) -> T): (vs: seq<T>)
    requires HasRosters(teamIds, rosters)
    ensures |vs| == RosterSizes(teamIds, rosters)
    decreases |teamIds|
  {
    if |teamIds| == 0 then []
    else
      var team := teamIds[|teamIds| - 1];
      var roster := rosters[team];
      PerEntry(teamIds[..|teamIds| - 1], rosters, f)
        + seq(|roster|, m requires 0 <= m < |roster| => f(roster[m], team))
  }

  /** What `getPlayers` leaves behind: the lines of the players file and the returned ids. */
  datatype PlayersExport = PlayersExport(lines: seq<string>, ids: seq<int>)

  /**
   * Walks the teams in order and each roster in order, writing one row and
   * collecting one id per roster entry. There is no deduplication: a row and an
   * id per appearance, so the counts are the sum of the roster sizes.
   */
  function GetPlayers(teamIds: seq<int>, rosters: map<int, seq<RosterEntry>>): (r: PlayersExport)
    requires HasRosters(teamIds, rosters)
    ensures |r.lines| == |r.ids| + 1 && r.lines[0] == Header
    ensures |r.ids| == RosterSizes(teamIds, rosters)
  {
    PlayersExport([Header] + PerEntry(teamIds, rosters, PlayerRow), PerEntry(teamIds, rosters, EntryId))
  }

  /**
   * Entry `j` of the roster of the `i`-th team gets the value at position
   * `j` after all entries of the earlier teams.
   */
  lemma {:induction false} PerEntryPlacement<T>(teamIds: seq<int>, rosters: map<int, seq<RosterEntry>>,
                                                 f: (RosterEntry, int) -> T, i: int, j: int)
    requires HasRosters(teamIds, rosters)
    requires 0 <= i < |teamIds| && 0 <= j < |rosters[teamIds[i]]|
    ensures RosterSizes(teamIds[..i], rosters) + j < RosterSizes(teamIds, rosters)
    ensures PerEntry(teamIds, rosters, f)[RosterSizes(teamIds[..i], rosters) + j]
         == f(rosters[teamIds[i]][j], teamIds[i])
    decreases |teamIds|
  {
    var n := |teamIds|;
    var front := teamIds[..n - 1];
    if i < n - 1 {
      assert front[..i] == teamIds[..i];
      assert front[i] == teamIds[i];
      PerEntryPlacement(front, rosters, f, i, j);
    } else {
      assert teamIds[..i] == front;
    }
  }

  /** Every position of the traversal is entry `j` of the `i`-th team's roster, for some `i` and `j`. */
  lemma {:induction false} PerEntrySlot(teamIds: seq<int>, rosters: map<int, seq<RosterEntry>>, k: int)
    returns (i: int, j: int)
    requires HasRosters(teamIds, rosters)
    requires 0 <= k < RosterSizes(teamIds, rosters)
    ensures 0 <= i < |teamIds| && 0 <= j < |rosters[teamIds[i]]|
    ensures k == RosterSizes(teamIds[..i], rosters) + j
    decreases |teamIds|
  {
    var n := |teamIds|;
    var front := teamIds[..n - 1];
    if k < RosterSizes(front, rosters) {
      i, j := PerEntrySlot(front, rosters, k);
      assert front[..i] == teamIds[..i];
    } else {
      i, j := n - 1, k - RosterSizes(front, rosters);
      assert teamIds[..i] == front;
    }
  }

  /** The traversal of two team lists one after the other is the concatenation of theirs. */
  lemma {:induction false} PerEntryAppend<T>(a: seq<int>, b: seq<int>, rosters: map<int, seq<RosterEntry>>,
                                              f: (RosterEntry, int) -> T)
    requires HasRosters(a, rosters) && HasRosters(b, rosters) && HasRosters(a + b, rosters)
    ensures PerEntry(a + b, rosters, f) == PerEntry(a, rosters, f) + PerEntry(b, rosters, f)
    decreases |b|
  {
    if |b| == 0 {
      assert a + b == a;
    } else {
      var n := |b|;
      var front := b[..n - 1];
      assert (a + b)[..|a + b| - 1] == a + front;
      assert (a + b)[|a + b| - 1] == b[n - 1];
      HasRostersParts(a + front, [b[n - 1]], rosters);
      HasRostersParts(front, [b[n - 1]], rosters);
      assert b == front + [b[n - 1]];
      PerEntryAppend(a, front, rosters, f);
    }
  }

  /**
   * Entry `j` of the roster of the `i`-th team lands at the same position in
   * both outputs: after all entries of the earlier teams, plus `j`.
   */
  lemma PlayerPlacement(teamIds: seq<int>, rosters: map<int, seq<RosterEntry>>, i: int, j: int)
    requires HasRosters(teamIds, rosters)
    requires 0 <= i < |teamIds| && 0 <= j < |rosters[teamIds[i]]|
    ensures RosterSizes(teamIds[..i], rosters) + j < |GetPlayers(teamIds, rosters).ids|
    ensures GetPlayers(teamIds, rosters).ids[RosterSizes(teamIds[..i], rosters) + j]
         == rosters[teamIds[i]][j].person.id
    ensures GetPlayers(teamIds, rosters).lines[RosterSizes(teamIds[..i], rosters) + j + 1]
         == PlayerRow(rosters[teamIds[i]][j], teamIds[i])
  {
    PerEntryPlacement(teamIds, rosters, EntryId, i, j);
    PerEntryPlacement(teamIds, rosters, PlayerRow, i, j);
  }

  /** Fewer leading teams never hold more roster entries. */
  lemma {:induction false} RosterSizesPrefix(teamIds: seq<int>, rosters: map<int, seq<RosterEntry>>, a: int, b: int)
    requires HasRosters(teamIds, rosters)
    requires 0 <= a <= b <= |teamIds|
    ensures RosterSizes(teamIds[..a], rosters) <= RosterSizes(teamIds[..b], rosters)
    decreases b - a
  {
    if a < b {
      RosterSizesPrefix(teamIds, rosters, a, b - 1);
      assert teamIds[..b][..b - 1] == teamIds[..b - 1];
    }
  }

  /**
   * Roster entries keep their order in both outputs: an entry of an earlier
   * team, or an earlier entry of the same team, comes first. Two appearances
   * of one player therefore give two ids and two rows.
   */
  lemma PlayerOrder(teamIds: seq<int>, rosters: map<int, seq<RosterEntry>>, i1: int, j1: int, i2: int, j2: int)
    requires HasRosters(teamIds, rosters)
    requires 0 <= i1 < |teamIds| && 0 <= j1 < |rosters[teamIds[i1]]|
    requires 0 <= i2 < |teamIds| && 0 <= j2 < |rosters[teamIds[i2]]|
    requires i1 < i2 || (i1 == i2 && j1 < j2)
    ensures RosterSizes(teamIds[..i1], rosters) + j1 < RosterSizes(teamIds[..i2], rosters) + j2
  {
    if i1 < i2 {
      RosterSizesPrefix(teamIds, rosters, i1 + 1, i2);
      assert teamIds[..i1 + 1][..i1] == teamIds[..i1];
    }
  }

  /** A player on two rosters, or twice on one, is exported twice: no deduplication. */
  lemma DuplicatesKept(teamIds: seq<int>, rosters: map<int, seq<RosterEntry>>, i1: int, j1: int, i2: int, j2: int)
    requires HasRosters(teamIds, rosters)
    requires 0 <= i1 < |teamIds| && 0 <= j1 < |rosters[teamIds[i1]]|
    requires 0 <= i2 < |teamIds| && 0 <= j2 < |rosters[teamIds[i2]]|
    requires i1 < i2 || (i1 == i2 && j1 < j2)
    requires rosters[teamIds[i1]][j1].person.id == rosters[teamIds[i2]][j2].person.id
    ensures var ids := GetPlayers(teamIds, rosters).ids;
      exists k1, k2 :: 0 <= k1 < k2 < |ids| && ids[k1] == ids[k2] == rosters[teamIds[i1]][j1].person.id
  {
    PlayerPlacement(teamIds, rosters, i1, j1);
    PlayerPlacement(teamIds, rosters, i2, j2);
    PlayerOrder(teamIds, rosters, i1, j1, i2, j2);
    var k1 := RosterSizes(teamIds[..i1], rosters) + j1;
    var k2 := RosterSizes(teamIds[..i2], rosters) + j2;
    assert 0 <= k1 < k2 < |GetPlayers(teamIds, rosters).ids|;
  }

  /**
   * Exporting two lists of teams one after the other gives the concatenation
   * of the ids and of the rows: each team contributes independently, in order.
   */
  lemma GetPlayersAppend(a: seq<int>, b: seq<int>, rosters: map<int, seq<RosterEntry>>)
    requires HasRosters(a + b, rosters)
    ensures HasRosters(a, rosters) && HasRosters(b, rosters)
    ensures GetPlayers(a + b, rosters).ids == GetPlayers(a, rosters).ids + GetPlayers(b, rosters).ids
    ensures GetPlayers(a + b, rosters).lines == GetPlayers(a, rosters).lines + GetPlayers(b, rosters).lines[1..]
  {
    HasRostersParts(a, b, rosters);
    PerEntryAppend(a, b, rosters, EntryId);
    PerEntryAppend(a, b, rosters, PlayerRow);
    var left := PerEntry(a, rosters, PlayerRow);
    var right := PerEntry(b, rosters, PlayerRow);
    assert GetPlayers(b, rosters).lines[1..] == right;
    assert GetPlayers(a + b, rosters).lines == [Header] + (left + right);
  }

  /** Both parts of a team list whose rosters are all present have their rosters present. */
  lemma HasRostersParts(a: seq<int>, b: seq<int>, rosters: map<int, seq<RosterEntry>>)
    requires HasRosters(a + b, rosters)
    ensures HasRosters(a, rosters) && HasRosters(b, rosters)
  {
    assert forall i :: 0 <= i < |a| ==> a[i] == (a + b)[i];
    assert forall i :: 0 <= i < |b| ==> b[i] == (a + b)[|a| + i];
  }

  /** `id` and `line` are the id and the row of some entry of the roster of some listed team. */
  predicate FromRoster(teamIds: seq<int>, rosters: map<int, seq<RosterEntry>>, id: int, line: string)
    requires HasRosters(teamIds, rosters)
  {
    exists i, j :: 0 <= i < |teamIds| && 0 <= j < |rosters[teamIds[i]]|
                   && id == rosters[teamIds[i]][j].person.id
                   && line == PlayerRow(rosters[teamIds[i]][j], teamIds[i])
  }

  /**
   * Every exported id and row comes from one roster entry of one listed team,
   * and the row names that team.
   */
  lemma RowsFromRosters(teamIds: seq<int>, rosters: map<int, seq<RosterEntry>>)
    requires HasRosters(teamIds, rosters)
    ensures forall k :: 0 <= k < |GetPlayers(teamIds, rosters).ids| ==>
      FromRoster(teamIds, rosters, GetPlayers(teamIds, rosters).ids[k], GetPlayers(teamIds, rosters).lines[k + 1])
  {
    var r := GetPlayers(teamIds, rosters);
    forall k | 0 <= k < |r.ids|
      ensures FromRoster(teamIds, rosters, r.ids[k], r.lines[k + 1])
    {
      var i, j := PerEntrySlot(teamIds, rosters, k);
      PlayerPlacement(teamIds, rosters, i, j);
    }
  }

  /**
   * A row's first two fields are the player id and the id of the team whose
   * roster it came from, whatever the name and position texts hold.
   */
  lemma PlayerRowIds(e: RosterEntry, team: int)
    ensures |Fields(PlayerRow(e, team))| >= 2
    ensures ParseInt(Fields(PlayerRow(e, team))[0]) == Some(e.person.id)
    ensures ParseInt(Fields(PlayerRow(e, team))[1]) == Some(team)
  {
    var f := PlayerFields(e, team);
    JoinFirstTwo(f, ',');
    IntToStringClean(e.person.id);
    IntToStringClean(team);
    LeadingFields(f[0], f[1], Join(f[2..], ','));
    IntToStringRoundTrip(e.person.id);
    IntToStringRoundTrip(team);
  }

  /** A roster entry whose texts are clean reads back as exactly five fields. */
  lemma PlayerRowFields(e: RosterEntry, team: int)
    requires Clean(e.person.fullName) && Clean(e.position.positionType) && Clean(e.position.abbreviation)
    ensures Fields(PlayerRow(e, team))
         == [IntToString(e.person.id), IntToString(team), e.person.fullName,
             e.position.positionType, e.position.abbreviation]
  {
    IntToStringClean(e.person.id);
    IntToStringClean(team);
    JoinRowFields(PlayerFields(e, team));
  }
}
