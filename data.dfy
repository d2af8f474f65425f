/** The values the badge pipeline exchanges with the platform's endpoints.
    Every network answer is an input value here: the pipeline never performs I/O. */
module Data {

  datatype Option<+T> = None | Some(value: T) {
    /** The value, or `default` when there is none (Python's `dict.get(key, default)`). */
    function GetOr(default: T): T {
      match this
      case Some(v) => v
      case None => default
    }
  }

  datatype Result<+R, +E> = Success(value: R) | Failure(error: E)

  type UserId = int
  type BadgeId = int

  /** Python truthiness of an optional string: None and "" are false. */
  predicate IsTruthy(s: Option<string>) {
    s.Some? && s.value != ""
  }

  /** Answer to the username lookup: the HTTP status and the `id` of each entry of
      `data`, in order (an absent `data` key reads as the empty list). */
  datatype UserLookup = UserLookup(status: int, ids: seq<UserId>)

  /** One entry of a badge listing page: its `id` and its other summary fields. */
  datatype BadgeEntry = BadgeEntry(id: BadgeId, summary: map<string, string>)

  /** One page of a user's badge listing. */
  datatype BadgePage = BadgePage(status: int, data: seq<BadgeEntry>, nextPageCursor: Option<string>)

  /** Decoded body of a badge detail answer: each key the pipeline reads (None when the
      key is absent) and the number of other keys the object holds. */
  datatype BadgeDetail = BadgeDetail(
    name: Option<string>,
    description: Option<string>,
    awardedCount: Option<int>,
    awardingUniverseId: Option<int>,
    created: Option<string>,
    otherKeys: nat)

  /** Python truthiness of the decoded object: only the empty dict is false. */
  predicate IsNonEmpty(d: BadgeDetail) {
    || d.name.Some?
    || d.description.Some?
    || d.awardedCount.Some?
    || d.awardingUniverseId.Some?
    || d.created.Some?
    || d.otherKeys > 0
  }

  datatype DetailResponse = DetailResponse(status: int, body: BadgeDetail)

  /** Answer to a game lookup: either the request or its decoding raised, or the
      HTTP status and the `name` of each game in `data` (None where the key is absent). */
  datatype GameLookup = Raised | GameResponse(status: int, games: seq<Option<string>>)

  /** A parsed creation timestamp: a point on the time line, and whether the
      datetime carries a UTC offset (offset-aware) or not (offset-naive). */
  datatype Instant = Instant(ticks: int, aware: bool)

  /** One badge both users hold, as handed to the result panel. */
  datatype SharedBadge = SharedBadge(
    id: BadgeId,
    name: string,
    description: string,
    awardedCount: int,
    created: Option<Instant>,
    game: string)
}
