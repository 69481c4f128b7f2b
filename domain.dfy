/** The persisted entities, as the rows the query services and the REST resource see. */
module Domain {
  import opened Wrappers

  /** A team row. Its players are the player rows whose `team` is this team's id. */
  datatype Team = Team(id: Option<int>, name: Option<string>, city: Option<string>)

  /**
   * A player row. `birthDate` is a `LocalDate` by its epoch day and `height`
   * and `weight` are `Double`s by their bit pattern: opaque values. `team` is
   * the id of the team the player belongs to, or `None` for a player without one.
   */
  datatype Player = Player(
    id: Option<int>,
    name: Option<string>,
    birthDate: Option<int>,
    height: Option<bv64>,
    weight: Option<bv64>,
    baskets: Option<int>,
    assists: Option<int>,
    team: Option<int>)
}
