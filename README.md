# Player and team criteria queries, in Dafny

A model of the query core of a JHipster/Spring backend over two entities, `Player` and `Team`. A team has many players, and a player belongs to at most one team. The model covers:

- **`PlayerCriteria`**: the mutable holder of the optional filters that a `GET /players` request binds. It has its copy constructor, `copy()`, lazy accessors, setters, `equals`, `hashCode` and `toString`. It is a class whose methods update its fields.
- **`PlayerQueryService` and `TeamQueryService`**: `createSpecification` turns a criteria into a specification. It starts from the match-everything specification, puts the `distinct` step first, and then ANDs in one step per non-null field in declaration order. The three entry points run that specification as a list, a page or a count.
  - A specification is a sequence of steps. Its meaning is the conjunction of its `Where` steps, evaluated on a row.
  - The repository is a sequence of rows.
  - Relationship filters go through a LEFT join. For players, the team id. For teams, the id of one of the team's players, which repeats a team once per player unless `distinct` is set.
- **`PlayerResource`**: the create, update, partial-update, read and delete handlers over a store of players. It covers the identifier checks, their order and their error keys, the response each handler gives, and how each handler changes the store. The handlers are written twice:
  - as functions from the store to an outcome, which the lemmas are about;
  - as methods of a class that holds the store, proved to produce exactly those outcomes.

The filter library's operator semantics is a parameter `satisfies(filter, value)`, and the model never fixes it. So is a filter's hash and its text. Every property below therefore holds whatever `equals`, `in`, `specified`, the range operators and `contains` mean.

Files:
- `wrappers.dfy`: `Option`.
- `filters.dfy`: filter values, column values and the `Satisfies` parameter.
- `specifications.dfy`: specifications, their meaning, the builder and running a query.
- `domain.dfy`: the entity rows.
- `java_lang.dfy`: the Java `int` arithmetic of `Objects.hash`.
- `player_criteria.dfy`, `player_query_service.dfy`, `team_query_service.dfy`, `player_resource.dfy`: one file per modelled source file.

Two behaviours of the code are worth knowing:
- `deletePlayer`, the handler itself, makes no existence check before calling the service and answering No Content.
- `partialUpdatePlayer` documents a Not Found answer in its Javadoc (`PlayerResource.java` line 107). A sequential run never reaches it, because the `idnotfound` check at lines 124-126 comes first.

## Model

| member | source | states |
|---|---|---|
| `Criteria.PlayerCriteria.constructor` | src/main/java/org/alfredorueda/spring/criteriajpa/service/criteria/PlayerCriteria.java:42 | a new criteria has every filter and `distinct` null, and each field holds a filter of its declared class |
| `Criteria.PlayerCriteria.From` | src/main/java/org/alfredorueda/spring/criteriajpa/service/criteria/PlayerCriteria.java:44-54 | the copy is null exactly where the original is, holds equal filters elsewhere, and carries `distinct` over; validity is kept |
| `Criteria.PlayerCriteria.Copy` | src/main/java/org/alfredorueda/spring/criteriajpa/service/criteria/PlayerCriteria.java:56-59 | `copy()` gives a fresh object with the same fields, equal to this one in both directions |
| `Criteria.PlayerCriteria.Id` | src/main/java/org/alfredorueda/spring/criteriajpa/service/criteria/PlayerCriteria.java:65-70 | afterwards the field is non-null and holds the returned filter; a stored filter is returned and nothing changes (so a second call returns the same); a null field gets an empty `LongFilter`; no other field changes |
| `Criteria.PlayerCriteria.Name` | src/main/java/org/alfredorueda/spring/criteriajpa/service/criteria/PlayerCriteria.java:80-85 | same as `id()`, with an empty `StringFilter` |
| `Criteria.PlayerCriteria.BirthDate` | src/main/java/org/alfredorueda/spring/criteriajpa/service/criteria/PlayerCriteria.java:95-100 | same as `id()`, with an empty `LocalDateFilter` |
| `Criteria.PlayerCriteria.Height` | src/main/java/org/alfredorueda/spring/criteriajpa/service/criteria/PlayerCriteria.java:110-115 | same as `id()`, with an empty `DoubleFilter` |
| `Criteria.PlayerCriteria.Weight` | src/main/java/org/alfredorueda/spring/criteriajpa/service/criteria/PlayerCriteria.java:125-130 | same as `id()`, with an empty `DoubleFilter` |
| `Criteria.PlayerCriteria.Baskets` | src/main/java/org/alfredorueda/spring/criteriajpa/service/criteria/PlayerCriteria.java:140-145 | same as `id()`, with an empty `IntegerFilter` |
| `Criteria.PlayerCriteria.Assists` | src/main/java/org/alfredorueda/spring/criteriajpa/service/criteria/PlayerCriteria.java:155-160 | same as `id()`, with an empty `IntegerFilter` |
| `Criteria.PlayerCriteria.TeamId` | src/main/java/org/alfredorueda/spring/criteriajpa/service/criteria/PlayerCriteria.java:170-175 | same as `id()`, with an empty `LongFilter` |
| `Criteria.PlayerCriteria.SetId` | src/main/java/org/alfredorueda/spring/criteriajpa/service/criteria/PlayerCriteria.java:72-74 | the id field becomes the argument and no other field changes |
| `Criteria.PlayerCriteria.SetName` | src/main/java/org/alfredorueda/spring/criteriajpa/service/criteria/PlayerCriteria.java:87-89 | the name field becomes the argument and no other field changes |
| `Criteria.PlayerCriteria.SetBirthDate` | src/main/java/org/alfredorueda/spring/criteriajpa/service/criteria/PlayerCriteria.java:102-104 | the birthDate field becomes the argument and no other field changes |
| `Criteria.PlayerCriteria.SetHeight` | src/main/java/org/alfredorueda/spring/criteriajpa/service/criteria/PlayerCriteria.java:117-119 | the height field becomes the argument and no other field changes |
| `Criteria.PlayerCriteria.SetWeight` | src/main/java/org/alfredorueda/spring/criteriajpa/service/criteria/PlayerCriteria.java:132-134 | the weight field becomes the argument and no other field changes |
| `Criteria.PlayerCriteria.SetBaskets` | src/main/java/org/alfredorueda/spring/criteriajpa/service/criteria/PlayerCriteria.java:147-149 | the baskets field becomes the argument and no other field changes |
| `Criteria.PlayerCriteria.SetAssists` | src/main/java/org/alfredorueda/spring/criteriajpa/service/criteria/PlayerCriteria.java:162-164 | the assists field becomes the argument and no other field changes |
| `Criteria.PlayerCriteria.SetTeamId` | src/main/java/org/alfredorueda/spring/criteriajpa/service/criteria/PlayerCriteria.java:177-179 | the teamId field becomes the argument and no other field changes |
| `Criteria.PlayerCriteria.SetDistinct` | src/main/java/org/alfredorueda/spring/criteriajpa/service/criteria/PlayerCriteria.java:185-187 | `distinct` becomes the argument and no filter changes |
| `Criteria.PlayerCriteria.Equals` | src/main/java/org/alfredorueda/spring/criteriajpa/service/criteria/PlayerCriteria.java:190-209 | true for the same object, false for null or another class; otherwise true exactly when all nine fields are equal |
| `Criteria.EqualsSymmetric` | src/main/java/org/alfredorueda/spring/criteriajpa/service/criteria/PlayerCriteria.java:190-209 | `equals` is symmetric |
| `Criteria.EqualsTransitive` | src/main/java/org/alfredorueda/spring/criteriajpa/service/criteria/PlayerCriteria.java:190-209 | `equals` is transitive |
| `Criteria.PlayerCriteria.FieldHashes` | src/main/java/org/alfredorueda/spring/criteriajpa/service/criteria/PlayerCriteria.java:213 | the nine hashes in declaration order: each filter field by the filter library's hash, `distinct` by `Boolean.hashCode`, and a null field as 0 |
| `Criteria.PlayerCriteria.HashCode` | src/main/java/org/alfredorueda/spring/criteriajpa/service/criteria/PlayerCriteria.java:212-214 | `Objects.hash` of those nine field hashes, in `int` arithmetic; an all-null criteria hashes to -196513505 |
| `Criteria.EqualsAgreesWithHashCode` | src/main/java/org/alfredorueda/spring/criteriajpa/service/criteria/PlayerCriteria.java:190-214 | equal criteria have equal hash codes, for any filter hash |
| `Criteria.EmptyCriteriaHashCode` | src/main/java/org/alfredorueda/spring/criteriajpa/service/criteria/PlayerCriteria.java:212-214 | an all-null criteria hashes to 31^9 wrapped to an `int`, -196513505 |
| `JavaLang.Wrap32` | src/main/java/org/alfredorueda/spring/criteriajpa/service/criteria/PlayerCriteria.java:213 | the result is the `int` congruent to the argument modulo 2^32, and equals the argument when it is already in range |
| `JavaLang.NineNullsHash` | src/main/java/org/alfredorueda/spring/criteriajpa/service/criteria/PlayerCriteria.java:213 | `Objects.hash` of nine nulls is 31^9 wrapped to an `int`, -196513505 |
| `Criteria.PlayerCriteria.ToString` | src/main/java/org/alfredorueda/spring/criteriajpa/service/criteria/PlayerCriteria.java:218-230 | the text is `PlayerCriteria{`, then one `name=value, ` segment for each non-null field in declaration order, then `}`; an all-null criteria prints `PlayerCriteria{}` |
| `Criteria.AppendKeepsText` | src/main/java/org/alfredorueda/spring/criteriajpa/service/criteria/PlayerCriteria.java:219-229 | appending the segments keeps the text already written as a prefix |
| `Criteria.SegmentsAllNull` | src/main/java/org/alfredorueda/spring/criteriajpa/service/criteria/PlayerCriteria.java:220-228 | null fields print nothing |
| `Criteria.PresentFieldPrinted` | src/main/java/org/alfredorueda/spring/criteriajpa/service/criteria/PlayerCriteria.java:219-228 | each non-null filter field appears in the text as `name=value, ` with the filter's own text, after the segments of the fields declared before it and before those declared after it |
| `Criteria.AppendNine` | src/main/java/org/alfredorueda/spring/criteriajpa/service/criteria/PlayerCriteria.java:219-229 | the nine-field concatenation is the left-to-right append of the segments |
| `Specifications.AndIfPresent` | src/main/java/org/alfredorueda/spring/criteriajpa/service/PlayerQueryService.java:85-87 | one `if (field != null) spec = spec.and(...)`: the result is the specification followed by the field's step, which is one step with its filter on its column when the field is non-null and nothing when it is null |
| `Specifications.AndEachAppends` | src/main/java/org/alfredorueda/spring/criteriajpa/service/PlayerQueryService.java:85-111 | ANDing the fields in turn onto a specification appends exactly the reference selection of the non-null fields |
| `Specifications.AndEachEight` | src/main/java/org/alfredorueda/spring/criteriajpa/service/PlayerQueryService.java:85-111 | eight successive field steps, spelled out, give the accumulated specification |
| `Specifications.AndEachFour` | src/main/java/org/alfredorueda/spring/criteriajpa/service/TeamQueryService.java:85-99 | four successive field steps, spelled out, give the accumulated specification |
| `Specifications.HoldsAppend` | src/main/java/org/alfredorueda/spring/criteriajpa/service/PlayerQueryService.java:18-22 | a row passes `a.and(b)` exactly when it passes both |
| `Specifications.HoldsEveryStep` | src/main/java/org/alfredorueda/spring/criteriajpa/service/PlayerQueryService.java:18-22 | a row passes a specification exactly when every filter step accepts its column value: all the filters must apply |
| `Specifications.DistinctAddsNoCondition` | src/main/java/org/alfredorueda/spring/criteriajpa/service/PlayerQueryService.java:81-84 | the `distinct` step puts no condition on a row |
| `Specifications.SelectMeaning` | src/main/java/org/alfredorueda/spring/criteriajpa/service/PlayerQueryService.java:85-111 | a row passes the field steps exactly when every non-null field's filter accepts the row's value in that field's column |
| `Specifications.SelectAllNull` | src/main/java/org/alfredorueda/spring/criteriajpa/service/PlayerQueryService.java:79-113 | all-null fields add no step |
| `Specifications.SelectSteps` | src/main/java/org/alfredorueda/spring/criteriajpa/service/PlayerQueryService.java:85-111 | the field steps are all filter steps, on the criteria's columns, at most one per field |
| `Specifications.SelectKeepsKinds` | src/main/java/org/alfredorueda/spring/criteriajpa/service/PlayerQueryService.java:85-110 | each step carries its own field's filter, so when every field holds a filter of the class its column expects, every step does |
| `Specifications.SelectOnePerField` | src/main/java/org/alfredorueda/spring/criteriajpa/service/PlayerQueryService.java:85-111 | with distinct columns, each field puts exactly its own filter on its column when non-null, and nothing when null |
| `Specifications.SelectKeepsOrder` | src/main/java/org/alfredorueda/spring/criteriajpa/service/PlayerQueryService.java:85-111 | the field steps follow the order of the columns |
| `Specifications.MoreFieldsNarrow` | src/main/java/org/alfredorueda/spring/criteriajpa/service/PlayerQueryService.java:85-111 | setting more fields never lets a row through that fewer fields reject |
| `Specifications.DistinctFlagOfBuilt` | src/main/java/org/alfredorueda/spring/criteriajpa/service/PlayerQueryService.java:81-84 | the query removes duplicates exactly when `distinct` is true; null and false both leave them |
| `Specifications.MentionsWhenFiltered` | src/main/java/org/alfredorueda/spring/criteriajpa/service/TeamQueryService.java:94-98 | a column is joined or read exactly when some step filters it |
| `Specifications.KeepAppend` | src/main/java/org/alfredorueda/spring/criteriajpa/service/PlayerQueryService.java:45 | filtering goes row by row: the rows kept from two runs of the table are those kept from the first followed by those kept from the second, and one row is kept exactly when it passes; so every passing row is kept, in table order |
| `Specifications.KeepMultiplicity` | src/main/java/org/alfredorueda/spring/criteriajpa/service/PlayerQueryService.java:45 | a passing row is kept as often as it occurs in the table, a failing row never |
| `Specifications.Dedupe` | src/main/java/org/alfredorueda/spring/criteriajpa/service/PlayerQueryService.java:83 | duplicate elimination keeps the same elements, each once |
| `Specifications.DedupeLength` | src/main/java/org/alfredorueda/spring/criteriajpa/service/PlayerQueryService.java:67-71 | the deduplicated list is as long as the set of distinct rows |
| `Specifications.CountWhereIsKeptLength` | src/main/java/org/alfredorueda/spring/criteriajpa/service/PlayerQueryService.java:67-71 | counting the passing rows gives the length of the list of passing rows |
| `Specifications.CountWherePositive` | src/main/java/org/alfredorueda/spring/criteriajpa/service/TeamQueryService.java:94-98 | a positive count means some row passes, and conversely |
| `Specifications.KeepEverything` | src/main/java/org/alfredorueda/spring/criteriajpa/service/PlayerQueryService.java:79 | a test every row passes keeps the whole table |
| `Specifications.Window` | src/main/java/org/alfredorueda/spring/criteriajpa/service/PlayerQueryService.java:55-59 | a page holds the rows from offset `number * size` on, in order: `size` of them, or all that remain when fewer do, and none past the end |
| `PlayerQueries.CreateSpecification` | src/main/java/org/alfredorueda/spring/criteriajpa/service/PlayerQueryService.java:78-114 | the built specification is the reference one: empty for a null criteria, the `distinct` step first when set, then only filter steps |
| `PlayerQueries.FindByCriteria` | src/main/java/org/alfredorueda/spring/criteriajpa/service/PlayerQueryService.java:42-46 | the list is the table rows the criteria's specification passes |
| `PlayerQueries.FindPageByCriteria` | src/main/java/org/alfredorueda/spring/criteriajpa/service/PlayerQueryService.java:55-59 | the page is the window of that same list, and its total is the list's length |
| `PlayerQueries.CountByCriteria` | src/main/java/org/alfredorueda/spring/criteriajpa/service/PlayerQueryService.java:67-71 | the count equals the length of the list for the same criteria |
| `PlayerQueries.CountAgreesWithList` | src/main/java/org/alfredorueda/spring/criteriajpa/service/PlayerQueryService.java:66-71 | count equals list length for every specification, with or without `distinct` |
| `PlayerQueries.NullCriteriaMatchesAll` | src/main/java/org/alfredorueda/spring/criteriajpa/service/PlayerQueryService.java:79-80 | a null criteria lists the whole table |
| `PlayerQueries.EmptyCriteriaMatchesAll` | src/main/java/org/alfredorueda/spring/criteriajpa/service/PlayerQueryService.java:79-113 | an all-null criteria builds no step and lists the whole table |
| `PlayerQueries.OneStepPerField` | src/main/java/org/alfredorueda/spring/criteriajpa/service/PlayerQueryService.java:85-111 | each non-null field adds exactly one step, its own filter on its own column; a null field adds none |
| `PlayerQueries.StepsInDeclarationOrder` | src/main/java/org/alfredorueda/spring/criteriajpa/service/PlayerQueryService.java:81-111 | after the optional `distinct` step, the steps follow id, name, birthDate, height, weight, baskets, assists, teamId |
| `PlayerQueries.FilterKindsMatchColumns` | src/main/java/org/alfredorueda/spring/criteriajpa/service/PlayerQueryService.java:85-110 | on a criteria whose fields hold filters of their declared classes, every step hands its builder (string, range or plain) a filter of the class that column expects |
| `PlayerQueries.MatchesEveryPresentFilter` | src/main/java/org/alfredorueda/spring/criteriajpa/service/PlayerQueryService.java:78-114 | a player is listed exactly when it is in the table and every non-null filter accepts its value |
| `PlayerQueries.MoreFiltersFewerPlayers` | src/main/java/org/alfredorueda/spring/criteriajpa/service/PlayerQueryService.java:85-111 | adding filters never lists a player that the fewer filters reject |
| `PlayerQueries.TeamlessPlayerJudgedOnNull` | src/main/java/org/alfredorueda/spring/criteriajpa/service/PlayerQueryService.java:106-110 | through the LEFT join, a player without a team is judged on a null team id rather than dropped |
| `PlayerQueries.UnspecifiedTeamSelectsTeamless` | src/main/java/org/alfredorueda/spring/criteriajpa/service/PlayerQueryService.java:106-110 | a team filter accepting only null selects exactly the players without a team |
| `PlayerQueries.EqualCriteriaListAlike` | src/main/java/org/alfredorueda/spring/criteriajpa/service/PlayerQueryService.java:78-114 | criteria that `equals` calls equal build the same specification and list the same players |
| `PlayerQueries.EntryPointsAgree` | src/main/java/org/alfredorueda/spring/criteriajpa/service/PlayerQueryService.java:42-71 | the list, page and count entry points agree: count is the list length and every page row is in the list |
| `TeamQueries.CreateSpecification` | src/main/java/org/alfredorueda/spring/criteriajpa/service/TeamQueryService.java:78-102 | the built specification is the reference one: empty for a null criteria, the `distinct` step first when set, then only filter steps |
| `TeamQueries.PlayersOf` | src/main/java/org/alfredorueda/spring/criteriajpa/service/TeamQueryService.java:97 | the players a team joins to are exactly the stored players whose team is its id |
| `TeamQueries.LeftJoin` | src/main/java/org/alfredorueda/spring/criteriajpa/service/TeamQueryService.java:97 | the LEFT join gives one row per player of the team, carrying that player's id, in table order; and a single null row for a team without players |
| `TeamQueries.FindByCriteria` | src/main/java/org/alfredorueda/spring/criteriajpa/service/TeamQueryService.java:42-46 | a team is in the list exactly when it is in the table and one of its joined rows passes |
| `TeamQueries.FindPageByCriteria` | src/main/java/org/alfredorueda/spring/criteriajpa/service/TeamQueryService.java:55-59 | the page is the window of that same list, and its total is the list's length |
| `TeamQueries.CountByCriteria` | src/main/java/org/alfredorueda/spring/criteriajpa/service/TeamQueryService.java:67-71 | the count equals the length of the list for the same criteria |
| `TeamQueries.JoinedMembership` | src/main/java/org/alfredorueda/spring/criteriajpa/service/TeamQueryService.java:94-98 | a team is selected, at least once, exactly when one of its joined rows passes |
| `TeamQueries.JoinedLength` | src/main/java/org/alfredorueda/spring/criteriajpa/service/TeamQueryService.java:94-98 | without `distinct`, the list has one entry per passing joined row |
| `TeamQueries.CountAgreesWithList` | src/main/java/org/alfredorueda/spring/criteriajpa/service/TeamQueryService.java:66-71 | count equals list length, with joined rows counted and `distinct` counting teams |
| `TeamQueries.NullCriteriaMatchesAll` | src/main/java/org/alfredorueda/spring/criteriajpa/service/TeamQueryService.java:79-80 | a null criteria lists the whole table, each team once |
| `TeamQueries.EmptyCriteriaMatchesAll` | src/main/java/org/alfredorueda/spring/criteriajpa/service/TeamQueryService.java:79-101 | an all-null criteria builds no step, makes no join and lists every team once |
| `TeamQueries.OneStepPerField` | src/main/java/org/alfredorueda/spring/criteriajpa/service/TeamQueryService.java:85-99 | each non-null field adds exactly one step, its own filter on its own column; a null field adds none |
| `TeamQueries.StepsInDeclarationOrder` | src/main/java/org/alfredorueda/spring/criteriajpa/service/TeamQueryService.java:81-99 | after the optional `distinct` step, the steps follow id, name, city, playerId |
| `TeamQueries.JoinOnlyForPlayerFilter` | src/main/java/org/alfredorueda/spring/criteriajpa/service/TeamQueryService.java:94-98 | the model makes the join to the players exactly when `playerId` is non-null |
| `TeamQueries.MatchesEveryPresentFilter` | src/main/java/org/alfredorueda/spring/criteriajpa/service/TeamQueryService.java:78-102 | a team is listed exactly when it is in the table and every non-null filter accepts one of its joined rows |
| `TeamQueries.AcceptsFewer` | src/main/java/org/alfredorueda/spring/criteriajpa/service/TeamQueryService.java:85-99 | a row accepted by more filters is accepted by a subset of them, since only the player column depends on the joined player |
| `TeamQueries.MoreFiltersFewerTeams` | src/main/java/org/alfredorueda/spring/criteriajpa/service/TeamQueryService.java:85-99 | adding filters never lists a team that the fewer filters reject, even when the added filter brings in the join |
| `TeamQueries.AddedJoinCanLengthenList` | src/main/java/org/alfredorueda/spring/criteriajpa/service/TeamQueryService.java:94-98 | the list and the count are not monotone in length: with no filter a team is listed once, and adding a `playerId` filter that accepts exactly the non-null ids (`specified=true`) lists it once per player, when every stored player has an id |
| `TeamQueries.TeamWithoutPlayersJudgedOnNull` | src/main/java/org/alfredorueda/spring/criteriajpa/service/TeamQueryService.java:94-98 | through the LEFT join, a team without players is judged on a null player id rather than dropped |
| `TeamQueries.UnspecifiedPlayerSelectsTeamsWithoutPlayers` | src/main/java/org/alfredorueda/spring/criteriajpa/service/TeamQueryService.java:94-98 | a player filter accepting only null selects exactly the teams without players |
| `TeamQueries.NullRowOnlyWithoutPlayers` | src/main/java/org/alfredorueda/spring/criteriajpa/service/TeamQueryService.java:97 | when every stored player has an id, the LEFT join yields a null player id exactly for a team without players |
| `TeamQueries.DistinctListsEachTeamOnce` | src/main/java/org/alfredorueda/spring/criteriajpa/service/TeamQueryService.java:82-84 | with `distinct` true, no team is listed twice |
| `TeamQueries.JoinRepeatsTeam` | src/main/java/org/alfredorueda/spring/criteriajpa/service/TeamQueryService.java:94-98 | in a one-team table, without `distinct`, the team is listed once per passing joined row |
| `TeamQueries.EntryPointsAgree` | src/main/java/org/alfredorueda/spring/criteriajpa/service/TeamQueryService.java:42-71 | the list, page and count entry points agree: count is the list length and every page row is in the list |
| `PlayerResources.Digits` | src/main/java/org/alfredorueda/spring/criteriajpa/web/rest/PlayerResource.java:63 | the decimal form of a natural number is a non-empty string of digits |
| `PlayerResources.DigitsRoundTrip` | src/main/java/org/alfredorueda/spring/criteriajpa/web/rest/PlayerResource.java:63 | reading the digits back gives the number |
| `PlayerResources.DecimalRoundTrip` | src/main/java/org/alfredorueda/spring/criteriajpa/web/rest/PlayerResource.java:63 | reading the signed decimal form back gives the id |
| `PlayerResources.LocationNamesTheId` | src/main/java/org/alfredorueda/spring/criteriajpa/web/rest/PlayerResource.java:63 | the location is `/api/players/` followed by the id, which it determines uniquely |
| `PlayerResources.CheckIds` | src/main/java/org/alfredorueda/spring/criteriajpa/web/rest/PlayerResource.java:82-91 | the checks pass exactly when the body id is set, equals the path id and is stored; otherwise `idnull`, then `idinvalid`, then `idnotfound`, in that order |
| `PlayerResources.PlayerResource.constructor` | src/main/java/org/alfredorueda/spring/criteriajpa/web/rest/PlayerResource.java:42-46 | the resource starts on a store that keeps each player under its own id |
| `PlayerResources.PlayerResource.CreatePlayer` | src/main/java/org/alfredorueda/spring/criteriajpa/web/rest/PlayerResource.java:55-66 | the response and new store are those of the create outcome: `idexists` with no write, or Created at the new id's location with the saved player |
| `PlayerResources.PlayerResource.UpdatePlayer` | src/main/java/org/alfredorueda/spring/criteriajpa/web/rest/PlayerResource.java:78-98 | the response and new store are those of the update outcome; the set of stored ids does not change |
| `PlayerResources.PlayerResource.PartialUpdatePlayer` | src/main/java/org/alfredorueda/spring/criteriajpa/web/rest/PlayerResource.java:111-134 | the response and new store are those of the partial-update outcome; the set of stored ids does not change |
| `PlayerResources.PlayerResource.GetPlayer` | src/main/java/org/alfredorueda/spring/criteriajpa/web/rest/PlayerResource.java:167-172 | Not Found exactly when the id is not stored, otherwise the stored player, which carries that id |
| `PlayerResources.PlayerResource.DeletePlayer` | src/main/java/org/alfredorueda/spring/criteriajpa/web/rest/PlayerResource.java:180-188 | always No Content, and the id is no longer stored |
| `PlayerResources.HandlersKeepStoreWellKeyed` | src/main/java/org/alfredorueda/spring/criteriajpa/web/rest/PlayerResource.java:55-188 | every handler keeps each stored player under its own id |
| `PlayerResources.CreateThenGet` | src/main/java/org/alfredorueda/spring/criteriajpa/web/rest/PlayerResource.java:58-65 | a body with an id is refused with `idexists` and nothing is written; otherwise Created at a location naming the new id, whose read returns the saved player, with exactly that id added |
| `PlayerResources.FailedChecksWriteNothing` | src/main/java/org/alfredorueda/spring/criteriajpa/web/rest/PlayerResource.java:82-126 | a failed check of an update or partial update answers Bad Request with its key and leaves the store as it was |
| `PlayerResources.UpdateThenGet` | src/main/java/org/alfredorueda/spring/criteriajpa/web/rest/PlayerResource.java:93-97 | an update answers Ok exactly when the checks pass, with the body, which a read then returns; the stored ids stay the same |
| `PlayerResources.PartialUpdateNeverNotFound` | src/main/java/org/alfredorueda/spring/criteriajpa/web/rest/PlayerResource.java:124-133 | once the checks pass, the partial update answers Ok with the merged player, so Not Found is never reached |
| `PlayerResources.MergeProperties` | src/main/java/org/alfredorueda/spring/criteriajpa/web/rest/PlayerResource.java:101 | a partial update keeps the id, ignores null fields (an all-null patch changes nothing), is idempotent, and a patch setting every field replaces the player |
| `PlayerResources.GetMatchesStore` | src/main/java/org/alfredorueda/spring/criteriajpa/web/rest/PlayerResource.java:167-172 | a read is Not Found exactly when the id is absent, and otherwise gives the player with that id |
| `PlayerResources.DeleteThenGet` | src/main/java/org/alfredorueda/spring/criteriajpa/web/rest/PlayerResource.java:180-188 | delete answers No Content, the handler making no check of its own; afterwards the id is not found, a second delete changes nothing, and other players are untouched |

## Left out

- Filter operator semantics: what `equals`, `in`, `specified`, the range operators and `contains` accept is the parameter `satisfies`. It comes from the filter library, which is not part of this model. So is a filter's own `hashCode` (parameter `filterHash`) and `toString` (parameter `show`).
- Filter equality: a filter is its class and the raw operand text bound to each operator, so the model's filter equality is stricter than the library's (`id.equals=5` and `id.equals=05` bind equal `LongFilter`s but unequal model values). `PlayerCriteria.equals`, `hashCode` and the lemmas about them use this stricter equality.
- Filter objects are values here. `Filter.copy()` gives an equal value, and the identity and aliasing of filter objects are not modelled. The copy constructor's fields are equal to the original's rather than separate objects.
- The plain getters (`getId()` … `getDistinct()`) are field reads. The model reads the fields directly.
- Spring Data and JPA: `Specification.where`/`and`, the static metamodel and SQL generation are replaced by the step sequence and its meaning. The repository is a sequence of rows in table order. A `Pageable` is a page number and a page size greater than zero. Sorting is not modelled.
- `PlayerService` is not part of this model:
  - `save` stores the body under a fresh id, which is given as a parameter that the store does not hold;
  - `update` replaces the stored row;
  - `partialUpdate` merges field by field. The handler's comment at `PlayerResource.java` line 101 only says that a null field is ignored. That the team is merged like the other fields, and that the stored id is kept, are this model's assumptions about the service;
  - `findOne` is a map lookup;
  - `delete` removes the key. The delete of an id that is not stored is modelled as a no-op that answers No Content; what the service really does then is not part of this model.
- `TeamCriteria.java` is not part of this model. Its fields are taken from the getters `TeamQueryService` calls (id, name, city, playerId, distinct), and it is an immutable value because the team query only reads it.
- `getAllPlayers` and `countPlayers` only forward to the player query service. They are modelled by `PlayerQueries.FindByCriteria` and `PlayerQueries.CountByCriteria`, and the HTTP wrapping is left out.
- HTTP and logging: headers, header alerts, `ResponseUtil`, `URISyntaxException` and logging are left out. A `BadRequestAlertException` is a `BadRequest` response carrying its error key.
- Integer widths: ids and counts are unbounded integers, not Java `long`. Only `hashCode` models 32-bit wrap-around.
- Concurrency: each handler runs as one step. A row deleted by another request between the existence check and the service call is not modelled, and that is the only way `partialUpdatePlayer` could answer Not Found.
- The join for a relationship filter (`JoinOnlyForPlayerFilter`, `JoinRepeatsTeam`, `AddedJoinCanLengthenList`): the `playerId` filter is modelled as one predicate on one LEFT-joined row, and the join is made whenever the field is non-null. `TeamQueryService.java` line 97 only hands the join to the filter library inside a lambda; whether the library applies it, and how many times, is not part of this model.
- Heights, weights and birth dates are opaque values, not numbers or dates.
- The Angular front-end files and the repository interfaces hold no logic modelled here.
