/**
 * `PlayerResource`: the REST handlers that create, update, partially update,
 * read and delete players. Each handler checks the body id, the path id and
 * the id's presence in the store, in a fixed order, before it writes; a failed
 * check is a Bad Request carrying an error key.
 */
module PlayerResources {
  import opened Wrappers
  import opened Domain

  /** What a handler answers, without the HTTP headers. */
  datatype Response =
    | BadRequest(errorKey: string)
    | NotFound
    | Ok(body: Player)
    | Created(location: string, body: Player)
    | NoContent

  /** The persisted players by id. */
  type Store = map<int, Player>

  /** Every stored player carries the id it is stored under. */
  predicate WellKeyed(store: Store)
  {
    forall id :: id in store ==> store[id].id == Some(id)
  }

  // ---------------------------------------------------------------------------
  // The location header: the new id in decimal, as `Long.toString` writes it

  /** The decimal digits of `n`, most significant first, without leading zeros. */
  function Digits(n: nat): (s: string)
    ensures |s| > 0
    ensures forall i :: 0 <= i < |s| ==> '0' <= s[i] <= '9'
    decreases n
  {
    if n < 10 then [(48 + n) as char]
    else Digits(n / 10) + [(48 + n % 10) as char]
  }

  /** The number a string of decimal digits denotes. */
  function ParseDigits(s: string): int
  {
    if s == [] then 0
    else ParseDigits(s[..|s| - 1]) * 10 + (s[|s| - 1] as int - 48)
  }

  /** `Long.toString`: a minus sign for a negative number, then the digits of its magnitude. */
  function Decimal(n: int): string
  {
    if n < 0 then "-" + Digits(-n) else Digits(n)
  }

  function ParseDecimal(s: string): int
  {
    if |s| > 0 && s[0] == '-' then -ParseDigits(s[1..]) else ParseDigits(s)
  }

  const LocationPrefix: string := "/api/players/"

  /** The location of a created player. */
  function Location(id: int): string
  {
    LocationPrefix + Decimal(id)
  }

  lemma {:induction false} DigitsRoundTrip(n: nat)
    ensures ParseDigits(Digits(n)) == n
    decreases n
  {
    var s := Digits(n);
    if n < 10 {
      assert s[..0] == [];
    } else {
      DigitsRoundTrip(n / 10);
      assert s[..|s| - 1] == Digits(n / 10);
    }
  }

  /** Reading the decimal form back gives the number. */
  lemma DecimalRoundTrip(n: int)
    ensures ParseDecimal(Decimal(n)) == n
  {
    if n < 0 {
      DigitsRoundTrip(-n);
      assert Decimal(n)[1..] == Digits(-n);
    } else {
      DigitsRoundTrip(n);
    }
  }

  /** The location names the player: it is the prefix followed by the id, which it determines. */
  lemma LocationNamesTheId(id: int, other: int)
    ensures |Location(id)| > |LocationPrefix| && Location(id)[..|LocationPrefix|] == LocationPrefix
    ensures ParseDecimal(Location(id)[|LocationPrefix|..]) == id
    ensures Location(id) == Location(other) ==> id == other
  {
    DecimalRoundTrip(id);
    DecimalRoundTrip(other);
    assert Location(id)[|LocationPrefix|..] == Decimal(id);
    assert Location(other)[|LocationPrefix|..] == Decimal(other);
  }

  // ---------------------------------------------------------------------------
  // The handlers as functions of the store

  /** The outcome of a request: the response and the store afterwards. */
  datatype Outcome = Outcome(response: Response, store: Store)

  /**
   * The identifier checks of `updatePlayer` and `partialUpdatePlayer`: a null
   * body id, then a path id other than the body id, then an id the store does
   * not hold. `None` when every check passes.
   */
  function CheckIds(pathId: Option<int>, bodyId: Option<int>, store: Store): (failure: Option<string>)
    ensures failure.None? <==> bodyId.Some? && pathId == bodyId && bodyId.value in store
    ensures bodyId.None? ==> failure == Some("idnull")
    ensures bodyId.Some? && pathId != bodyId ==> failure == Some("idinvalid")
    ensures bodyId.Some? && pathId == bodyId && bodyId.value !in store ==> failure == Some("idnotfound")
  {
    if bodyId.None? then Some("idnull")
    else if pathId != bodyId then Some("idinvalid")
    else if bodyId.value !in store then Some("idnotfound")
    else None
  }

  /**
   * `createPlayer`: a body with an id is refused; otherwise the player is saved
   * under the id the store generates, `newId`.
   */
  function CreateOutcome(store: Store, player: Player, newId: int): Outcome
  {
    if player.id.Some? then Outcome(BadRequest("idexists"), store)
    else
      var saved := player.(id := Some(newId));
      Outcome(Created(Location(newId), saved), store[newId := saved])
  }

  /** `updatePlayer`: after the checks, the body replaces the stored player. */
  function UpdateOutcome(store: Store, pathId: Option<int>, player: Player): Outcome
  {
    var failure := CheckIds(pathId, player.id, store);
    if failure.Some? then Outcome(BadRequest(failure.value), store)
    else Outcome(Ok(player), store[player.id.value := player])
  }

  /** A partial update: every non-null field of the patch replaces the stored one; the id stays. */
  function Merge(existing: Player, patch: Player): Player
  {
    Player(
      existing.id,
      if patch.name.Some? then patch.name else existing.name,
      if patch.birthDate.Some? then patch.birthDate else existing.birthDate,
      if patch.height.Some? then patch.height else existing.height,
      if patch.weight.Some? then patch.weight else existing.weight,
      if patch.baskets.Some? then patch.baskets else existing.baskets,
      if patch.assists.Some? then patch.assists else existing.assists,
      if patch.team.Some? then patch.team else existing.team)
  }

  /** The service's partial update: the merged player, or nothing when the id is not stored. */
  function PartialUpdateResult(store: Store, patch: Player): Option<Player>
  {
    if patch.id.Some? && patch.id.value in store then Some(Merge(store[patch.id.value], patch)) else None
  }

  /** `partialUpdatePlayer`: the same checks, then the merged player, or Not Found when there is none. */
  function PartialUpdateOutcome(store: Store, pathId: Option<int>, patch: Player): Outcome
  {
    var failure := CheckIds(pathId, patch.id, store);
    if failure.Some? then Outcome(BadRequest(failure.value), store)
    else
      var result := PartialUpdateResult(store, patch);
      if result.Some? then Outcome(Ok(result.value), store[patch.id.value := result.value])
      else Outcome(NotFound, store)
  }

  /** `getPlayer`: the stored player, or Not Found. */
  function GetResponse(store: Store, id: int): Response
  {
    if id in store then Ok(store[id]) else NotFound
  }

  /**
   * `deletePlayer`: the handler makes no check of its own and answers No
   * Content; the service's delete is taken to remove the id, and to do nothing
   * for an id that is not stored.
   */
  function DeleteOutcome(store: Store, id: int): Outcome
  {
    Outcome(NoContent, store - {id})
  }

  // ---------------------------------------------------------------------------
  // The controller over its store

  class PlayerResource {
    var players: Store

    predicate Valid()
      reads this
    {
      WellKeyed(players)
    }

    constructor (store: Store)
      requires WellKeyed(store)
      ensures players == store
      ensures Valid()
    {
      players := store;
    }

    /** `POST /players`. `newId` is the id the store generates for a new row. */
    method CreatePlayer(player: Player, newId: int) returns (r: Response)
      requires Valid()
      requires newId !in players
      modifies this
      ensures Outcome(r, players) == CreateOutcome(old(players), player, newId)
      ensures Valid()
    {
      if player.id.Some? {
        return BadRequest("idexists");
      }
      var saved := player.(id := Some(newId));
      players := players[newId := saved];
      r := Created(Location(newId), saved);
    }

    /** `PUT /players/{id}`. */
    method UpdatePlayer(pathId: Option<int>, player: Player) returns (r: Response)
      requires Valid()
      modifies this
      ensures Outcome(r, players) == UpdateOutcome(old(players), pathId, player)
      ensures players.Keys == old(players.Keys)
      ensures Valid()
    {
      if player.id.None? {
        return BadRequest("idnull");
      }
      if pathId != player.id {
        return BadRequest("idinvalid");
      }
      var id := player.id.value;
      if id !in players {
        return BadRequest("idnotfound");
      }
      players := players[id := player];
      r := Ok(player);
    }

    /** `PATCH /players/{id}`. */
    method PartialUpdatePlayer(pathId: Option<int>, patch: Player) returns (r: Response)
      requires Valid()
      modifies this
      ensures Outcome(r, players) == PartialUpdateOutcome(old(players), pathId, patch)
      ensures players.Keys == old(players.Keys)
      ensures Valid()
    {
      if patch.id.None? {
        return BadRequest("idnull");
      }
      if pathId != patch.id {
        return BadRequest("idinvalid");
      }
      var id := patch.id.value;
      if id !in players {
        return BadRequest("idnotfound");
      }
      var result := PartialUpdateResult(players, patch);
      if result.Some? {
        players := players[id := result.value];
      }
      r := if result.Some? then Ok(result.value) else NotFound;
    }

    /** `GET /players/{id}`. */
    method GetPlayer(id: int) returns (r: Response)
      requires Valid()
      ensures r == GetResponse(players, id)
      ensures r.NotFound? <==> id !in players
      ensures r.Ok? ==> r.body.id == Some(id)
    {
      if id in players {
        r := Ok(players[id]);
      } else {
        r := NotFound;
      }
    }

    /** `DELETE /players/{id}`. */
    method DeletePlayer(id: int) returns (r: Response)
      requires Valid()
      modifies this
      ensures Outcome(r, players) == DeleteOutcome(old(players), id)
      ensures Valid()
    {
      players := players - {id};
      r := NoContent;
    }
  }

  // ---------------------------------------------------------------------------
  // What the handlers promise

  /** Every handler keeps each stored player under its own id. */
  lemma HandlersKeepStoreWellKeyed(store: Store, pathId: Option<int>, player: Player, newId: int, id: int)
    requires WellKeyed(store)
    requires newId !in store
    ensures WellKeyed(CreateOutcome(store, player, newId).store)
    ensures WellKeyed(UpdateOutcome(store, pathId, player).store)
    ensures WellKeyed(PartialUpdateOutcome(store, pathId, player).store)
    ensures WellKeyed(DeleteOutcome(store, id).store)
  {
    if CheckIds(pathId, player.id, store).None? {
      var k := player.id.value;
      assert k in store && store[k].id == Some(k);
      assert Merge(store[k], player).id == Some(k);
    }
  }

  /**
   * A create without a body id answers Created at the location of the new
   * id, with the saved player, which a read then returns; a body with an id
   * is refused with `idexists` and nothing is written.
   */
  lemma CreateThenGet(store: Store, player: Player, newId: int)
    requires newId !in store
    ensures var o := CreateOutcome(store, player, newId);
      if player.id.Some? then o == Outcome(BadRequest("idexists"), store)
      else
        o.response.Created? &&
        o.response.location[..|LocationPrefix|] == LocationPrefix &&
        ParseDecimal(o.response.location[|LocationPrefix|..]) == newId &&
        GetResponse(o.store, newId) == Ok(player.(id := Some(newId))) &&
        o.store.Keys == store.Keys + {newId}
  {
    LocationNamesTheId(newId, newId);
  }

  /** A failed check of an update or partial update answers Bad Request and writes nothing. */
  lemma FailedChecksWriteNothing(store: Store, pathId: Option<int>, player: Player)
    requires CheckIds(pathId, player.id, store).Some?
    ensures UpdateOutcome(store, pathId, player) == Outcome(BadRequest(CheckIds(pathId, player.id, store).value), store)
    ensures PartialUpdateOutcome(store, pathId, player) == Outcome(BadRequest(CheckIds(pathId, player.id, store).value), store)
    ensures CheckIds(pathId, player.id, store).value in {"idnull", "idinvalid", "idnotfound"}
  {
  }

  /** A successful update answers Ok with the body, which a read then returns. */
  lemma UpdateThenGet(store: Store, pathId: Option<int>, player: Player)
    ensures var o := UpdateOutcome(store, pathId, player);
      o.response.Ok? <==> CheckIds(pathId, player.id, store).None?
    ensures var o := UpdateOutcome(store, pathId, player);
      o.response.Ok? ==> o.response.body == player && GetResponse(o.store, player.id.value) == Ok(player)
    ensures UpdateOutcome(store, pathId, player).store.Keys == store.Keys
  {
  }

  /**
   * Once the checks pass the stored player exists, so the partial update
   * always answers Ok with the merged player: Not Found cannot be reached.
   */
  lemma PartialUpdateNeverNotFound(store: Store, pathId: Option<int>, patch: Player)
    ensures PartialUpdateOutcome(store, pathId, patch).response != NotFound
    ensures CheckIds(pathId, patch.id, store).None? ==>
      PartialUpdateOutcome(store, pathId, patch).response == Ok(Merge(store[patch.id.value], patch))
  {
  }

  /** The patch's non-null fields win and its null fields leave the stored value; merging twice changes nothing more. */
  lemma MergeProperties(existing: Player, patch: Player)
    ensures Merge(existing, patch).id == existing.id
    ensures Merge(Merge(existing, patch), patch) == Merge(existing, patch)
    ensures patch == Player(patch.id, None, None, None, None, None, None, None) ==> Merge(existing, patch) == existing
    ensures (patch.name.Some? && patch.birthDate.Some? && patch.height.Some? && patch.weight.Some? &&
             patch.baskets.Some? && patch.assists.Some? && patch.team.Some?) ==>
      Merge(existing, patch) == patch.(id := existing.id)
  {
  }

  /** A read answers Not Found exactly when the id is not stored, and otherwise the player with that id. */
  lemma GetMatchesStore(store: Store, id: int)
    requires WellKeyed(store)
    ensures GetResponse(store, id).NotFound? <==> id !in store
    ensures GetResponse(store, id).Ok? ==> GetResponse(store, id).body.id == Some(id)
  {
  }

  /** Delete answers No Content; afterwards a read finds nothing, a second delete changes nothing, and other players stay. */
  lemma DeleteThenGet(store: Store, id: int)
    ensures DeleteOutcome(store, id).response == NoContent
    ensures GetResponse(DeleteOutcome(store, id).store, id) == NotFound
    ensures DeleteOutcome(DeleteOutcome(store, id).store, id) == DeleteOutcome(store, id)
    ensures forall other :: other != id && other in store ==> GetResponse(DeleteOutcome(store, id).store, other) == Ok(store[other])
  {
  }
}
