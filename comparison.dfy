/** Comparing two users' badge collections: the shared ids, each enriched from its
    detail record and game name, ordered newest first. */
module Comparison {
  import opened Data
  import opened Details
  import opened Ordering

  const UnknownBadge: string := "Unknown Badge"
  const NoDescription: string := "No description."

  /** `datetime.fromisoformat`, left abstract: the instant a string denotes, or None
      where the parse raises. */
  type IsoParser = string -> Option<Instant>

  /** The badge detail endpoint: the answer for each badge id. */
  type DetailSource = BadgeId -> DetailResponse

  /** What one character becomes: the zone marker `Z` is written as the offset "+00:00". */
  function ZoneChar(c: char): string {
    if c == 'Z' then "+00:00" else [c]
  }

  /** `s.replace("Z", "+00:00")`: every zone marker `Z` written as an explicit offset. */
  function ReplaceZ(s: string): (r: string)
    ensures 'Z' !in r
    ensures 'Z' !in s ==> r == s
    ensures |r| >= |s|
    ensures |s| == 1 ==> r == (if s[0] == 'Z' then "+00:00" else s)
  {
    if s == [] then []
    else ZoneChar(s[0]) + ReplaceZ(s[1..])
  }

  /** The replacement works character by character, so it distributes over concatenation. */
  lemma {:induction false} ReplaceZConcat(a: string, b: string)
    ensures ReplaceZ(a + b) == ReplaceZ(a) + ReplaceZ(b)
    decreases |a|
  {
    if a == [] {
      assert a + b == b;
    } else {
      assert (a + b)[0] == a[0] && (a + b)[1..] == a[1..] + b;
      ReplaceZConcat(a[1..], b);
      calc {
        ReplaceZ(a + b);
        ZoneChar(a[0]) + ReplaceZ(a[1..] + b);
        ZoneChar(a[0]) + (ReplaceZ(a[1..]) + ReplaceZ(b));
        (ZoneChar(a[0]) + ReplaceZ(a[1..])) + ReplaceZ(b);
        ReplaceZ(a) + ReplaceZ(b);
      }
    }
  }

  /** The creation instant of a detail record: None when `created` is absent or empty
      or does not parse, never an error. */
  function ParseCreated(created: Option<string>, parse: IsoParser): (r: Option<Instant>)
    ensures !IsTruthy(created) ==> r == None
    ensures IsTruthy(created) ==> r == parse(ReplaceZ(created.value))
  {
    if IsTruthy(created) then parse(ReplaceZ(created.value)) else None
  }

  /** The record assembled for a shared badge from its detail, with the defaults for absent keys. */
  function MakeSharedBadge(id: BadgeId, info: BadgeDetail, directory: GameDirectory, parse: IsoParser): (r: SharedBadge)
    ensures r.id == id
    ensures info.name.None? ==> r.name == UnknownBadge
    ensures info.name.Some? ==> r.name == info.name.value
    ensures info.description.None? ==> r.description == NoDescription
    ensures info.description.Some? ==> r.description == info.description.value
    ensures info.awardedCount.None? ==> r.awardedCount == 0
    ensures info.awardedCount.Some? ==> r.awardedCount == info.awardedCount.value
    ensures !IsTruthy(info.created) ==> r.created == None
    ensures r.created == ParseCreated(info.created, parse)
    ensures r.game == GetBadgeGameName(info, directory)
  {
    SharedBadge(
      id,
      info.name.GetOr(UnknownBadge),
      info.description.GetOr(NoDescription),
      info.awardedCount.GetOr(0),
      ParseCreated(info.created, parse),
      GetBadgeGameName(info, directory))
  }

  /** A shared id is kept when its detail lookup gives a non-empty record. */
  predicate Kept(details: DetailSource, id: BadgeId) {
    var info := GetBadgeInfo(details(id));
    info.Some? && IsNonEmpty(info.value)
  }

  /** The ids the comparison reports: shared by both collections and kept. */
  function SharedIds(b1: map<BadgeId, BadgeEntry>, b2: map<BadgeId, BadgeEntry>, details: DetailSource): set<BadgeId> {
    set id | id in b1.Keys * b2.Keys && Kept(details, id)
  }

  /** Every record is the one assembled for its id, from a kept detail. */
  ghost predicate Assembled(s: seq<SharedBadge>, details: DetailSource, directory: GameDirectory, parse: IsoParser) {
    forall r :: r in s ==>
      Kept(details, r.id) && r == MakeSharedBadge(r.id, details(r.id).body, directory, parse)
  }

  /** The loop of `compare_badges`: one record per kept id of `sharedIds`, in the
      (unspecified) order in which the set is visited. */
  method CollectShared(sharedIds: set<BadgeId>, details: DetailSource, directory: GameDirectory, parse: IsoParser)
    returns (shared: seq<SharedBadge>)
    ensures Assembled(shared, details, directory, parse)
    ensures DistinctIds(shared)
    ensures IdsOf(shared) == set id | id in sharedIds && Kept(details, id)
  {
    shared := [];
    var remaining := sharedIds;
    while remaining != {}
      invariant remaining <= sharedIds
      invariant Assembled(shared, details, directory, parse)
      invariant DistinctIds(shared)
      invariant IdsOf(shared) == set id | id in sharedIds - remaining && Kept(details, id)
      decreases remaining
    {
      HasMember(remaining);
      var badgeId :| badgeId in remaining;
      ghost var done := set id | id in sharedIds - remaining && Kept(details, id);
      assert badgeId !in IdsOf(shared);
      var info := GetBadgeInfo(details(badgeId));
      if info.Some? && IsNonEmpty(info.value) {
        var badge := MakeSharedBadge(badgeId, info.value, directory, parse);
        assert forall r :: r in shared + [badge] ==> r in shared || r == badge;
        assert IdsOf(shared + [badge]) == IdsOf(shared) + {badgeId};
        shared := shared + [badge];
        assert (set id | id in sharedIds - (remaining - {badgeId}) && Kept(details, id)) == done + {badgeId};
      } else {
        assert (set id | id in sharedIds - (remaining - {badgeId}) && Kept(details, id)) == done;
      }
      remaining := remaining - {badgeId};
    }
  }

  lemma HasMember(s: set<BadgeId>)
    requires s != {}
    ensures exists id :: id in s
  {
    if forall id :: id !in s {
      assert false;
    }
  }

  /** `compare_badges`: one record per shared, kept id, each assembled from its
      detail, newest first. */
  method CompareBadges(b1: map<BadgeId, BadgeEntry>, b2: map<BadgeId, BadgeEntry>,
                       details: DetailSource, directory: GameDirectory, parse: IsoParser)
    returns (result: seq<SharedBadge>)
    ensures forall r :: r in result ==> r.id in b1 && r.id in b2
    ensures DistinctIds(result)
    ensures IdsOf(result) == SharedIds(b1, b2, details)
    ensures Assembled(result, details, directory, parse)
    ensures NewestFirst(result)
  {
    var shared := CollectShared(b1.Keys * b2.Keys, details, directory, parse);
    SortKeepsIds(shared);
    result := SortNewestFirst(shared);
    forall r | r in result ensures r in shared && r.id in IdsOf(shared) {
      assert r in multiset(result);
    }
  }

  /** The reported ids are all the shared ids exactly when every shared id's detail
      lookup gives a non-empty record. */
  lemma AllSharedReported(b1: map<BadgeId, BadgeEntry>, b2: map<BadgeId, BadgeEntry>, details: DetailSource)
    ensures SharedIds(b1, b2, details) == b1.Keys * b2.Keys <==>
      forall id :: id in b1 && id in b2 ==> Kept(details, id)
  {
    if SharedIds(b1, b2, details) == b1.Keys * b2.Keys {
      forall id | id in b1 && id in b2 ensures Kept(details, id) {
        assert id in SharedIds(b1, b2, details);
      }
    }
  }

  /** A sequence with distinct ids holds each of its records once. */
  lemma {:induction false} DistinctIdsOnce(s: seq<SharedBadge>)
    requires DistinctIds(s)
    ensures forall x :: multiset(s)[x] == if x in s then 1 else 0
  {
    if s != [] {
      var t := s[1..];
      assert s == [s[0]] + t;
      assert DistinctIds(t) by {
        forall i, j | 0 <= i < j < |t| ensures t[i].id != t[j].id {
          assert t[i] == s[i + 1] && t[j] == s[j + 1];
        }
      }
      DistinctIdsOnce(t);
      assert s[0] !in t by {
        forall k | 0 <= k < |t| ensures t[k] != s[0] {
          assert t[k] == s[k + 1];
        }
      }
    }
  }

  /** Two results that meet the postcondition of `CompareBadges` for the same lookups
      hold the same records: the comparison is repeatable, up to the order of badges
      created at the same instant. */
  lemma SameRecordsEachRun(r1: seq<SharedBadge>, r2: seq<SharedBadge>,
                           details: DetailSource, directory: GameDirectory, parse: IsoParser)
    requires DistinctIds(r1) && DistinctIds(r2)
    requires IdsOf(r1) == IdsOf(r2)
    requires Assembled(r1, details, directory, parse) && Assembled(r2, details, directory, parse)
    ensures multiset(r1) == multiset(r2)
  {
    DistinctIdsOnce(r1);
    DistinctIdsOnce(r2);
    forall x ensures x in r1 <==> x in r2 {
      if x in r1 {
        assert x.id in IdsOf(r2);
        var y :| y in r2 && y.id == x.id;
      }
      if x in r2 {
        assert x.id in IdsOf(r1);
        var y :| y in r1 && y.id == x.id;
      }
    }
    assert forall x :: multiset(r1)[x] == multiset(r2)[x];
  }

  /** Two results of `CompareBadges` for the same lookups differ at most in the order
      of badges created at the same instant: position by position, their badges tie. */
  lemma SameOrderEachRun(r1: seq<SharedBadge>, r2: seq<SharedBadge>,
                         details: DetailSource, directory: GameDirectory, parse: IsoParser)
    requires DistinctIds(r1) && DistinctIds(r2)
    requires IdsOf(r1) == IdsOf(r2)
    requires Assembled(r1, details, directory, parse) && Assembled(r2, details, directory, parse)
    requires NewestFirst(r1) && NewestFirst(r2)
    ensures |r1| == |r2|
    ensures forall i :: 0 <= i < |r1| ==> SameInstant(r1[i].created, r2[i].created)
  {
    SameRecordsEachRun(r1, r2, details, directory, parse);
    NewestFirstUpToTies(r1, r2);
  }

  /** Badges {1, 2, 3} and {2, 3, 4}, where only badge 2's detail lookup succeeds:
      badge 2 alone is reported. */
  lemma OnlyFetchedSharedBadgeReported(b1: map<BadgeId, BadgeEntry>, b2: map<BadgeId, BadgeEntry>, details: DetailSource)
    requires b1.Keys == {1, 2, 3} && b2.Keys == {2, 3, 4}
    requires details(2).status == 200 && IsNonEmpty(details(2).body)
    requires details(3).status != 200
    ensures SharedIds(b1, b2, details) == {2}
  {
    assert b1.Keys * b2.Keys == {2, 3};
  }
}
