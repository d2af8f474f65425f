/** Collecting every badge of one user by following the listing's page cursors. */
module Collector {
  import opened Data

  /** The listing endpoint of one user: the page answered to a request that carries
      the given cursor (None: the request has no cursor parameter). */
  type Listing = Option<string> -> BadgePage

  datatype CollectError = ListingFailed(userId: UserId)

  /** The loop leaves after this page: a failed page raises, a missing or empty
      `nextPageCursor` ends the listing. */
  predicate EndsAt(page: BadgePage) {
    page.status != 200 || !IsTruthy(page.nextPageCursor)
  }

  /** The cursor carried by request `k`: none for the first request, the previous
      page's `nextPageCursor` for each later one. */
  function CursorAt(listing: Listing, k: nat): Option<string> {
    if k == 0 then None else listing(CursorAt(listing, k - 1)).nextPageCursor
  }

  /** The page answered to request `k`. */
  function PageAt(listing: Listing, k: nat): BadgePage {
    listing(CursorAt(listing, k))
  }

  /** Every entry of the first `n` pages, page after page, each in page order. */
  function Entries(listing: Listing, n: nat): seq<BadgeEntry> {
    if n == 0 then [] else Entries(listing, n - 1) + PageAt(listing, n - 1).data
  }

  /** `m` after `m[e.id] = e` for each entry `e` of `s`, in order. */
  function Store(m: map<BadgeId, BadgeEntry>, s: seq<BadgeEntry>): map<BadgeId, BadgeEntry> {
    if s == [] then m else Store(m, s[..|s| - 1])[s[|s| - 1].id := s[|s| - 1]]
  }

  function Ids(s: seq<BadgeEntry>): set<BadgeId> {
    set e | e in s :: e.id
  }

  /** The cursors of the first `n` requests, in order. */
  function Requests(listing: Listing, n: nat): (r: seq<Option<string>>)
    ensures |r| == n
  {
    if n == 0 then [] else Requests(listing, n - 1) + [CursorAt(listing, n - 1)]
  }

  /** `get_all_badges`. `requests` are the cursors of the listing requests it sends,
      in order. The source has no bound on the number of pages: the loop ends only
      when a page fails or carries no cursor, which `last` witnesses. */
  method GetAllBadges(userId: UserId, listing: Listing, ghost last: nat)
    returns (r: Result<map<BadgeId, BadgeEntry>, CollectError>, requests: seq<Option<string>>)
    requires EndsAt(PageAt(listing, last))
    ensures |requests| > 0 && requests[0] == None
    ensures forall k :: 0 < k < |requests| ==>
      IsTruthy(requests[k]) && requests[k] == PageAt(listing, k - 1).nextPageCursor
    ensures forall k :: 0 <= k < |requests| - 1 ==> !EndsAt(PageAt(listing, k))
    ensures EndsAt(PageAt(listing, |requests| - 1))
    ensures r.Failure? <==> PageAt(listing, |requests| - 1).status != 200
    ensures r.Failure? ==> r.error == ListingFailed(userId)
    ensures r.Success? ==> r.value == Store(map[], Entries(listing, |requests|))
  {
    var badges: map<BadgeId, BadgeEntry> := map[];
    var cursor: Option<string> := None;
    var failed := false;
    requests := [];
    while true
      invariant |requests| <= last
      invariant requests == Requests(listing, |requests|)
      invariant cursor == CursorAt(listing, |requests|)
      invariant |requests| > 0 ==> IsTruthy(cursor)
      invariant forall k :: 0 <= k < |requests| ==> !EndsAt(PageAt(listing, k))
      invariant badges == Store(map[], Entries(listing, |requests|))
      decreases last - |requests|
    {
      var sent := if IsTruthy(cursor) then cursor else None;
      var page := listing(sent);
      ghost var n := |requests|;
      requests := requests + [sent];
      if page.status != 200 {
        failed := true;
        break;
      }
      badges := StorePage(badges, page.data);
      StoreAppend(map[], Entries(listing, n), page.data);
      cursor := page.nextPageCursor;
      if !IsTruthy(cursor) {
        break;
      }
    }
    RequestsFollowCursors(listing, |requests|);
    r := if failed then Failure(ListingFailed(userId)) else Success(badges);
  }

  /** While no page before the last ends the listing, every request after the first
      carries the previous page's (non-empty) cursor. */
  lemma {:induction false} RequestsFollowCursors(listing: Listing, n: nat)
    requires n > 0
    requires forall k :: 0 <= k < n - 1 ==> !EndsAt(PageAt(listing, k))
    ensures Requests(listing, n)[0] == None
    ensures forall k :: 0 < k < n ==>
      IsTruthy(Requests(listing, n)[k]) && Requests(listing, n)[k] == PageAt(listing, k - 1).nextPageCursor
  {
    if n > 1 {
      RequestsFollowCursors(listing, n - 1);
      var r, r' := Requests(listing, n), Requests(listing, n - 1);
      assert forall k :: 0 <= k < n - 1 ==> r[k] == r'[k];
      assert !EndsAt(PageAt(listing, n - 2));
      assert r[n - 1] == CursorAt(listing, n - 1) == PageAt(listing, n - 2).nextPageCursor;
    }
  }

  /** The inner loop of `get_all_badges`: files each entry of a page under its id. */
  method StorePage(badges: map<BadgeId, BadgeEntry>, data: seq<BadgeEntry>) returns (m: map<BadgeId, BadgeEntry>)
    ensures m == Store(badges, data)
  {
    m := badges;
    var i := 0;
    while i < |data|
      invariant 0 <= i <= |data|
      invariant m == Store(badges, data[..i])
    {
      assert data[..i + 1][..i] == data[..i];
      m := m[data[i].id := data[i]];
      i := i + 1;
    }
    assert data[..i] == data;
  }

  /** Storing `a` then `b` is storing `a + b`. */
  lemma {:induction false} StoreAppend(m: map<BadgeId, BadgeEntry>, a: seq<BadgeEntry>, b: seq<BadgeEntry>)
    ensures Store(m, a + b) == Store(Store(m, a), b)
    decreases |b|
  {
    if b == [] {
      assert a + b == a;
    } else {
      var b' := b[..|b| - 1];
      assert (a + b)[..|a + b| - 1] == a + b';
      StoreAppend(m, a, b');
    }
  }

  /** The keys after storing are the old keys and the ids of the stored entries. */
  lemma {:induction false} StoreKeys(m: map<BadgeId, BadgeEntry>, s: seq<BadgeEntry>)
    ensures Store(m, s).Keys == m.Keys + Ids(s)
    decreases |s|
  {
    if s != [] {
      var s' := s[..|s| - 1];
      StoreKeys(m, s');
      assert s == s' + [s[|s| - 1]];
      assert Ids(s) == Ids(s') + {s[|s| - 1].id};
    }
  }

  /** Storing entries whose ids differ from `id` leaves the value under `id` alone. */
  lemma {:induction false} StoreOtherIds(m: map<BadgeId, BadgeEntry>, s: seq<BadgeEntry>, id: BadgeId)
    requires id !in Ids(s)
    ensures id in Store(m, s) <==> id in m
    ensures id in m ==> Store(m, s)[id] == m[id]
    decreases |s|
  {
    if s != [] {
      var s' := s[..|s| - 1];
      assert s[|s| - 1] in s;
      assert Ids(s') <= Ids(s) by {
        forall e | e in s' ensures e in s {
          var k :| 0 <= k < |s'| && s'[k] == e;
          assert s[k] == e;
        }
      }
      StoreOtherIds(m, s', id);
    }
  }

  /** Within one sequence of entries, the last entry with a given id is the one stored. */
  lemma {:induction false} StoreLastWins(m: map<BadgeId, BadgeEntry>, s: seq<BadgeEntry>, i: nat)
    requires i < |s|
    requires forall j :: i < j < |s| ==> s[j].id != s[i].id
    ensures s[i].id in Store(m, s) && Store(m, s)[s[i].id] == s[i]
    decreases |s|
  {
    var s' := s[..|s| - 1];
    if i < |s| - 1 {
      StoreLastWins(m, s', i);
    }
  }

  /** Every stored value is an entry of `s` filed under its own id. */
  lemma {:induction false} StoreKeyedById(s: seq<BadgeEntry>)
    ensures forall id :: id in Store(map[], s) ==> Store(map[], s)[id].id == id && Store(map[], s)[id] in s
    decreases |s|
  {
    if s != [] {
      var s' := s[..|s| - 1];
      StoreKeyedById(s');
      forall id | id in Store(map[], s)
        ensures Store(map[], s)[id].id == id && Store(map[], s)[id] in s
      {
        if id != s[|s| - 1].id {
          var e := Store(map[], s')[id];
          assert e in s';
          var k :| 0 <= k < |s'| && s'[k] == e;
          assert s[k] == e;
        }
      }
    }
  }

  /** An id is among the ids of the first `n` pages exactly when some page before `n` holds it. */
  lemma {:induction false} EntriesIds(listing: Listing, n: nat, id: BadgeId)
    ensures id in Ids(Entries(listing, n)) <==> exists k :: 0 <= k < n && id in Ids(PageAt(listing, k).data)
  {
    if n > 0 {
      EntriesIds(listing, n - 1, id);
      var a, b := Entries(listing, n - 1), PageAt(listing, n - 1).data;
      assert Ids(a + b) == Ids(a) + Ids(b) by {
        forall e | e in a + b ensures e in a || e in b {
          var k :| 0 <= k < |a + b| && (a + b)[k] == e;
          if k < |a| { assert a[k] == e; } else { assert b[k - |a|] == e; }
        }
        forall e | e in a ensures e in a + b { var k :| 0 <= k < |a| && a[k] == e; assert (a + b)[k] == e; }
        forall e | e in b ensures e in a + b { var k :| 0 <= k < |b| && b[k] == e; assert (a + b)[|a| + k] == e; }
      }
    }
  }

  /** The collected map's keys are exactly the ids found on the first `n` pages. */
  lemma CollectedKeys(listing: Listing, n: nat)
    ensures forall id :: id in Store(map[], Entries(listing, n)) <==>
      exists k :: 0 <= k < n && id in Ids(PageAt(listing, k).data)
  {
    StoreKeys(map[], Entries(listing, n));
    forall id ensures id in Ids(Entries(listing, n)) <==> exists k :: 0 <= k < n && id in Ids(PageAt(listing, k).data) {
      EntriesIds(listing, n, id);
    }
  }

  /** For an id met several times, the collected value is the last occurrence:
      a later page wins over an earlier one, a later position over an earlier one. */
  lemma {:induction false} CollectedLastWins(listing: Listing, n: nat, k: nat, i: nat)
    requires k < n && i < |PageAt(listing, k).data|
    requires forall j :: i < j < |PageAt(listing, k).data| ==>
      PageAt(listing, k).data[j].id != PageAt(listing, k).data[i].id
    requires forall k' :: k < k' < n ==> PageAt(listing, k).data[i].id !in Ids(PageAt(listing, k').data)
    ensures var m := Store(map[], Entries(listing, n));
      PageAt(listing, k).data[i].id in m && m[PageAt(listing, k).data[i].id] == PageAt(listing, k).data[i]
  {
    var page := PageAt(listing, k).data;
    StoreAppend(map[], Entries(listing, n - 1), PageAt(listing, n - 1).data);
    if n == k + 1 {
      StoreLastWins(Store(map[], Entries(listing, k)), page, i);
    } else {
      CollectedLastWins(listing, n - 1, k, i);
      StoreOtherIds(Store(map[], Entries(listing, n - 1)), PageAt(listing, n - 1).data, page[i].id);
    }
  }
}
