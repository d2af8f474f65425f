/** The two per-badge lookups: the badge's detail record and the name of the game that awards it. */
module Details {
  import opened Data

  const UnknownGame: string := "Unknown Game"

  /** The game lookup endpoint: the answer for each universe id. */
  type GameDirectory = int -> GameLookup

  /** `get_badge_info`: the decoded body of a 200 answer, nothing otherwise. */
  function GetBadgeInfo(res: DetailResponse): (r: Option<BadgeDetail>)
    ensures r.Some? <==> res.status == 200
    ensures r.Some? ==> r.value == res.body
  {
    if res.status != 200 then None else Some(res.body)
  }

  /** Python truthiness of `awardingUniverseId`: absent and 0 are false. */
  predicate HasUniverse(info: BadgeDetail) {
    info.awardingUniverseId.Some? && info.awardingUniverseId.value != 0
  }

  /** The lookup answered 200 with at least one game, and the first game has a `name`. */
  predicate NamesFirstGame(res: GameLookup) {
    res.GameResponse? && res.status == 200 && |res.games| > 0 && res.games[0].Some?
  }

  /** `get_badge_game_name`: best-effort title of the game awarding the badge; every
      failure, including a raised lookup, yields the sentinel "Unknown Game". */
  function GetBadgeGameName(info: BadgeDetail, directory: GameDirectory): (r: string)
    ensures !HasUniverse(info) ==> r == UnknownGame
    ensures HasUniverse(info) && NamesFirstGame(directory(info.awardingUniverseId.value)) ==>
      r == directory(info.awardingUniverseId.value).games[0].value
    ensures r != UnknownGame ==>
      HasUniverse(info) && NamesFirstGame(directory(info.awardingUniverseId.value)) &&
      directory(info.awardingUniverseId.value).games[0].value == r
  {
    if !HasUniverse(info) then UnknownGame
    else match directory(info.awardingUniverseId.value)
      case Raised => UnknownGame
      case GameResponse(status, games) =>
        if status == 200 && |games| > 0 then games[0].GetOr(UnknownGame) else UnknownGame
  }

  /** Without a universe id no lookup is made: the answer does not depend on the directory. */
  lemma GameNameWithoutUniverse(info: BadgeDetail, d1: GameDirectory, d2: GameDirectory)
    requires !HasUniverse(info)
    ensures GetBadgeGameName(info, d1) == GetBadgeGameName(info, d2) == UnknownGame
  {
  }
}
