/**
 * The stats-API records the exporters read, after JSON decoding. A field the
 * code reads with subscripting, or whose value it concatenates or iterates,
 * must be present and is a plain field here; a field it reads with `.get`
 * and only compares or passes to `str` may be absent and is an `Option`.
 * Stat values are of an arbitrary type `V`; their text is supplied by the
 * caller as a `render` function standing for Python's `str`.
 */
module Records {
  import opened Wrappers

  /** One element of the `teams` list of the `teams` feed. */
  datatype Team = Team(id: int, name: string)

  /** The `person` of a roster entry. */
  datatype Person = Person(id: int, fullName: string)

  /** The `position` of a roster entry. */
  datatype Position = Position(positionType: string, abbreviation: string)

  /** One element of the `roster` list of the `teams/{id}/roster` feed. */
  datatype RosterEntry = RosterEntry(person: Person, position: Position)

  datatype League = League(name: Option<string>)

  /** One year-by-year split: a season of one player in one league. */
  datatype SeasonSplit<V> = SeasonSplit(season: Option<V>, league: League, stat: map<string, V>)

  datatype StatsBlock<V> = StatsBlock(splits: seq<SeasonSplit<V>>)

  datatype PrimaryPosition = PrimaryPosition(positionType: Option<string>)

  /** The first element of `people` of the `people/{id}?hydrate=stats(splits=yearByYear)` feed. */
  datatype Player<V> = Player(primaryPosition: PrimaryPosition, stats: seq<StatsBlock<V>>)

  /** Python's `d.get(key)`. */
  function Lookup<V>(m: map<string, V>, key: string): (r: Option<V>)
    ensures r.Some? <==> key in m
    ensures r.Some? ==> r.value == m[key]
  {
    if key in m then Some(m[key]) else None
  }

  /** Python's `str` of a value read with `.get`: `None` reads as the text "None". */
  function Str<V>(v: Option<V>, render: V -> string): (t: string)
    ensures v.None? ==> t == "None"
    ensures v.Some? ==> t == render(v.value)
  {
    match v
    case None => "None"
    case Some(x) => render(x)
  }
}
