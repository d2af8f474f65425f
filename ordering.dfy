/** Ordering the shared badges newest first.

    The intended order: compare creation instants, and rank a badge without one below
    every badge with one. The sort key written in the source, `created or datetime.min`,
    does not give that order in Python when parsed instants carry a UTC offset: it then
    compares the offset-naive `datetime.min` with offset-aware instants, which raises
    TypeError. Both are modelled below: the intended sort, which the comparison uses,
    and the sort as written, with its failing comparisons. */
module Ordering {
  import opened Data

  /** The intended order on creation instants: a missing instant is below every instant. */
  predicate CreatedAtMost(a: Option<Instant>, b: Option<Instant>) {
    a.None? || (b.Some? && a.value.ticks <= b.value.ticks)
  }

  /** Newest first: no badge is created before a badge that follows it. */
  ghost predicate NewestFirst(s: seq<SharedBadge>) {
    forall i, j :: 0 <= i < j < |s| ==> CreatedAtMost(s[j].created, s[i].created)
  }

  function IdsOf(s: seq<SharedBadge>): set<BadgeId> {
    set r | r in s :: r.id
  }

  ghost predicate DistinctIds(s: seq<SharedBadge>) {
    forall i, j :: 0 <= i < j < |s| ==> s[i].id != s[j].id
  }

  /** Places `x` before the first badge of `s` it is not older than. */
  function InsertNewestFirst(x: SharedBadge, s: seq<SharedBadge>): (r: seq<SharedBadge>)
    ensures multiset(r) == multiset(s) + multiset{x}
  {
    if s == [] then [x]
    else if CreatedAtMost(s[0].created, x.created) then [x] + s
    else
      assert s == [s[0]] + s[1..];
      [s[0]] + InsertNewestFirst(x, s[1..])
  }

  /** Inserting into a newest-first sequence keeps it newest first. */
  lemma {:induction false} InsertKeepsNewestFirst(x: SharedBadge, s: seq<SharedBadge>)
    requires NewestFirst(s)
    ensures NewestFirst(InsertNewestFirst(x, s))
    decreases |s|
  {
    if s != [] && !CreatedAtMost(s[0].created, x.created) {
      var rest := InsertNewestFirst(x, s[1..]);
      InsertKeepsNewestFirst(x, s[1..]);
      forall y | y in rest ensures CreatedAtMost(y.created, s[0].created) {
        assert y in multiset(rest);
        if y != x {
          var k :| 0 <= k < |s[1..]| && s[1..][k] == y;
          assert s[k + 1] == y;
        }
      }
      ConsNewestFirst(s[0], rest);
    }
  }

  /** A badge not older than any badge of a newest-first sequence can lead it. */
  lemma ConsNewestFirst(a: SharedBadge, t: seq<SharedBadge>)
    requires NewestFirst(t)
    requires forall y :: y in t ==> CreatedAtMost(y.created, a.created)
    ensures NewestFirst([a] + t)
  {
    var r := [a] + t;
    forall i, j | 0 <= i < j < |r| ensures CreatedAtMost(r[j].created, r[i].created) {
      assert r[j] == t[j - 1];
      if i > 0 {
        assert r[i] == t[i - 1];
      }
    }
  }

  /** `sorted(shared, key=..., reverse=True)` with the intended order: the result is
      a permutation of `s`, newest first. */
  function SortNewestFirst(s: seq<SharedBadge>): (r: seq<SharedBadge>)
    ensures multiset(r) == multiset(s)
    ensures NewestFirst(r)
  {
    if s == [] then []
    else
      assert s == [s[0]] + s[1..];
      InsertKeepsNewestFirst(s[0], SortNewestFirst(s[1..]));
      InsertNewestFirst(s[0], SortNewestFirst(s[1..]))
  }

  /** A badge without a creation instant never precedes one with an instant, and the
      instants that are present do not increase along the sequence. */
  lemma NewestFirstShape(s: seq<SharedBadge>)
    requires NewestFirst(s)
    ensures forall i, j :: 0 <= i < j < |s| && s[i].created.None? ==> s[j].created.None?
    ensures forall i, j :: 0 <= i < j < |s| && s[i].created.Some? && s[j].created.Some? ==>
      s[j].created.value.ticks <= s[i].created.value.ticks
  {
  }

  /** Two creation instants the intended order cannot tell apart: both missing, or
      both present at the same point on the time line. */
  predicate SameInstant(a: Option<Instant>, b: Option<Instant>) {
    CreatedAtMost(a, b) && CreatedAtMost(b, a)
  }

  /** Removing one badge from a newest-first sequence keeps it newest first. */
  lemma RemoveKeepsNewestFirst(s: seq<SharedBadge>, p: nat)
    requires p < |s| && NewestFirst(s)
    ensures NewestFirst(s[..p] + s[p + 1..])
  {
    var t := s[..p] + s[p + 1..];
    forall i, j | 0 <= i < j < |t| ensures CreatedAtMost(t[j].created, t[i].created) {
      var i' := if i < p then i else i + 1;
      var j' := if j < p then j else j + 1;
      assert t[i] == s[i'] && t[j] == s[j'];
    }
  }

  /** Two newest-first arrangements of the same badges agree position by position up
      to ties: the badges at each index were created at the same instant. */
  lemma {:induction false} NewestFirstUpToTies(r1: seq<SharedBadge>, r2: seq<SharedBadge>)
    requires NewestFirst(r1) && NewestFirst(r2)
    requires multiset(r1) == multiset(r2)
    ensures |r1| == |r2|
    ensures forall i :: 0 <= i < |r1| ==> SameInstant(r1[i].created, r2[i].created)
    decreases |r1|
  {
    assert |r1| == |multiset(r1)| == |multiset(r2)| == |r2|;
    if r1 != [] {
      var p := MatchLeader(r1, r2);
      NewestFirstUpToTies(r1[1..], r2[..p] + r2[p + 1..]);
      UnshiftTies(r1, r2, p);
      ShiftTies(r1, r2, p);
    }
  }

  /** The leader of `r1` sits at some index `p` of `r2`; the leaders tie, and the
      sequences without those badges are again two newest-first arrangements of the
      same badges. */
  lemma MatchLeader(r1: seq<SharedBadge>, r2: seq<SharedBadge>) returns (p: nat)
    requires NewestFirst(r1) && NewestFirst(r2)
    requires multiset(r1) == multiset(r2) && r1 != []
    ensures p < |r2| && r2[p] == r1[0]
    ensures SameInstant(r1[0].created, r2[0].created)
    ensures NewestFirst(r1[1..]) && NewestFirst(r2[..p] + r2[p + 1..])
    ensures multiset(r1[1..]) == multiset(r2[..p] + r2[p + 1..])
  {
    p := RemoveLeader(r1, r2);
    RemoveKeepsNewestFirst(r1, 0);
    assert r1[..0] + r1[1..] == r1[1..];
    RemoveKeepsNewestFirst(r2, p);
    assert r2[0] in multiset(r1);
    LeadersTie(r1, r2);
  }

  /** Removing the leader of `r1` from `r1` and its occurrence from `r2` leaves the same badges. */
  lemma RemoveLeader(r1: seq<SharedBadge>, r2: seq<SharedBadge>) returns (p: nat)
    requires multiset(r1) == multiset(r2) && r1 != []
    ensures p < |r2| && r2[p] == r1[0]
    ensures multiset(r1[1..]) == multiset(r2[..p] + r2[p + 1..])
  {
    assert r1[0] in multiset(r2);
    p :| 0 <= p < |r2| && r2[p] == r1[0];
    assert r1 == [r1[0]] + r1[1..];
    RemoveOne(r2, p);
  }

  /** Ties between the tails, read back at the positions of `r1` and `r2`. */
  lemma UnshiftTies(r1: seq<SharedBadge>, r2: seq<SharedBadge>, p: nat)
    requires |r1| == |r2| && p < |r2|
    requires forall i :: 0 <= i < |r1| - 1 ==>
      SameInstant(r1[1..][i].created, (r2[..p] + r2[p + 1..])[i].created)
    ensures forall i :: 0 < i <= p ==> SameInstant(r1[i].created, r2[i - 1].created)
    ensures forall i :: p < i < |r1| ==> SameInstant(r1[i].created, r2[i].created)
  {
    var rest1, rest2 := r1[1..], r2[..p] + r2[p + 1..];
    forall i | 0 < i <= p ensures SameInstant(r1[i].created, r2[i - 1].created) {
      assert r1[i] == rest1[i - 1] && rest2[i - 1] == r2[i - 1];
    }
    forall i | p < i < |r1| ensures SameInstant(r1[i].created, r2[i].created) {
      assert r1[i] == rest1[i - 1] && rest2[i - 1] == r2[i];
    }
  }

  /** Removing the badge at `p` removes one occurrence of it from the multiset. */
  lemma RemoveOne(s: seq<SharedBadge>, p: nat)
    requires p < |s|
    ensures multiset(s[..p] + s[p + 1..]) == multiset(s) - multiset{s[p]}
  {
    assert s == s[..p] + [s[p]] + s[p + 1..];
  }

  /** The leaders of two newest-first sequences, each occurring in the other, tie. */
  lemma LeadersTie(r1: seq<SharedBadge>, r2: seq<SharedBadge>)
    requires NewestFirst(r1) && NewestFirst(r2)
    requires r1 != [] && r2 != [] && r1[0] in r2 && r2[0] in r1
    ensures SameInstant(r1[0].created, r2[0].created)
  {
    var p :| 0 <= p < |r2| && r2[p] == r1[0];
    var q :| 0 <= q < |r1| && r1[q] == r2[0];
    if p > 0 { assert CreatedAtMost(r2[p].created, r2[0].created); }
    if q > 0 { assert CreatedAtMost(r1[q].created, r1[0].created); }
  }

  /** Badges of `r2` before `r2[p]` tie with `r2[0]`; so a tie shifted by one place
      before `p` is a tie in place. */
  lemma ShiftTies(r1: seq<SharedBadge>, r2: seq<SharedBadge>, p: nat)
    requires NewestFirst(r2) && |r1| == |r2| && p < |r2| && r2[p] == r1[0]
    requires SameInstant(r1[0].created, r2[0].created)
    requires forall i :: 0 < i <= p ==> SameInstant(r1[i].created, r2[i - 1].created)
    requires forall i :: p < i < |r1| ==> SameInstant(r1[i].created, r2[i].created)
    ensures forall i :: 0 <= i < |r1| ==> SameInstant(r1[i].created, r2[i].created)
  {
    forall i | 0 <= i < |r1| ensures SameInstant(r1[i].created, r2[i].created) {
      if 0 < i <= p {
        assert CreatedAtMost(r2[p].created, r2[i].created) || i == p;
        assert CreatedAtMost(r2[i].created, r2[0].created);
        assert CreatedAtMost(r2[i - 1].created, r2[0].created) || i == 1;
        assert CreatedAtMost(r2[p].created, r2[i - 1].created) || i - 1 == p;
      }
    }
  }

  /** Sorting keeps the ids of the badges, and keeps them distinct. */
  lemma {:induction false} SortKeepsIds(s: seq<SharedBadge>)
    requires DistinctIds(s)
    ensures IdsOf(SortNewestFirst(s)) == IdsOf(s)
    ensures DistinctIds(SortNewestFirst(s))
  {
    var r := SortNewestFirst(s);
    assert forall y :: y in r <==> y in s by {
      forall y ensures y in r <==> y in s {
        assert y in r <==> y in multiset(r);
      }
    }
    if s != [] {
      var t := SortNewestFirst(s[1..]);
      assert DistinctIds(s[1..]) by {
        forall i, j | 0 <= i < j < |s[1..]| ensures s[1..][i].id != s[1..][j].id {
          assert s[1..][i] == s[i + 1] && s[1..][j] == s[j + 1];
        }
      }
      SortKeepsIds(s[1..]);
      assert s[0].id !in IdsOf(s[1..]) by {
        forall y | y in s[1..] ensures y.id != s[0].id {
          var k :| 0 <= k < |s[1..]| && s[1..][k] == y;
          assert s[k + 1] == y;
        }
      }
      InsertKeepsDistinct(s[0], t);
    }
  }

  lemma {:induction false} InsertKeepsDistinct(x: SharedBadge, s: seq<SharedBadge>)
    requires DistinctIds(s) && x.id !in IdsOf(s)
    ensures DistinctIds(InsertNewestFirst(x, s))
    decreases |s|
  {
    if s != [] && !CreatedAtMost(s[0].created, x.created) {
      var rest := InsertNewestFirst(x, s[1..]);
      assert IdsOf(s[1..]) <= IdsOf(s) by {
        forall y | y in s[1..] ensures y in s {
          var k :| 0 <= k < |s[1..]| && s[1..][k] == y;
          assert s[k + 1] == y;
        }
      }
      assert DistinctIds(s[1..]) by {
        forall i, j | 0 <= i < j < |s[1..]| ensures s[1..][i].id != s[1..][j].id {
          assert s[1..][i] == s[i + 1] && s[1..][j] == s[j + 1];
        }
      }
      InsertKeepsDistinct(x, s[1..]);
      forall y | y in rest ensures y.id != s[0].id {
        assert y in multiset(rest);
        if y != x {
          var k :| 0 <= k < |s[1..]| && s[1..][k] == y;
          assert s[k + 1] == y;
        }
      }
      assert s[0] in s;
    } else if s != [] {
      assert forall y :: y in s ==> y.id != x.id;
    }
  }

  // ---------------------------------------------------------------------------------
  // The sort as written

  /** Python's sort key `x["created"] or datetime.min`; `datetime.min` is offset-naive. */
  datatype PyKey = DatetimeMin | PyDatetime(at: Instant)

  function PyKeyOf(created: Option<Instant>): PyKey {
    match created
    case None => DatetimeMin
    case Some(i) => PyDatetime(i)
  }

  predicate IsAware(k: PyKey) {
    k.PyDatetime? && k.at.aware
  }

  /** Python's `<` on two datetimes; None is the TypeError raised when one operand is
      offset-naive and the other offset-aware. `datetime.min` is below every naive datetime. */
  function PyLess(a: PyKey, b: PyKey): (r: Option<bool>)
    ensures r.None? <==> IsAware(a) != IsAware(b)
  {
    if IsAware(a) != IsAware(b) then None
    else match (a, b)
      case (DatetimeMin, DatetimeMin) => Some(false)
      // Treated as strictly below every naive datetime; a naive instant equal to
      // `datetime.min` (midnight of year 1) would compare equal in Python.
      case (DatetimeMin, PyDatetime(_)) => Some(true)
      case (PyDatetime(_), DatetimeMin) => Some(false)
      case (PyDatetime(i), PyDatetime(j)) => Some(i.ticks < j.ticks)
  }

  /** Whether a badge's sort key is offset-aware. */
  predicate AwareKey(x: SharedBadge) {
    IsAware(PyKeyOf(x.created))
  }

  /** Insertion with the key comparison as written; None when a comparison raises. */
  function InsertAsWritten(x: SharedBadge, s: seq<SharedBadge>): Option<seq<SharedBadge>> {
    if s == [] then Some([x])
    else match PyLess(PyKeyOf(x.created), PyKeyOf(s[0].created))
      case None => None
      case Some(less) =>
        if !less then Some([x] + s)
        else match InsertAsWritten(x, s[1..])
          case None => None
          case Some(rest) => Some([s[0]] + rest)
  }

  /** The sort as written in the source, as an insertion sort whose comparisons may raise. */
  function SortAsWritten(s: seq<SharedBadge>): Option<seq<SharedBadge>> {
    if s == [] then Some([])
    else match SortAsWritten(s[1..])
      case None => None
      case Some(t) => InsertAsWritten(s[0], t)
  }

  /** A successful insertion as written keeps the elements, and compared `x` with the
      first element of a non-empty `s`, so `x` has the awareness of that element. */
  lemma {:induction false} InsertAsWrittenSucceeds(x: SharedBadge, s: seq<SharedBadge>, u: seq<SharedBadge>)
    requires InsertAsWritten(x, s) == Some(u)
    ensures multiset(u) == multiset(s) + multiset{x}
    ensures s != [] ==> AwareKey(x) == AwareKey(s[0])
    decreases |s|
  {
    if s != [] {
      assert s == [s[0]] + s[1..];
      var less := PyLess(PyKeyOf(x.created), PyKeyOf(s[0].created));
      if less.value {
        var rest :| InsertAsWritten(x, s[1..]) == Some(rest) && u == [s[0]] + rest;
        InsertAsWrittenSucceeds(x, s[1..], rest);
      }
    }
  }

  /** The sort as written succeeds only on a list whose keys are all offset-aware or
      all offset-naive, and then yields a permutation of its input. */
  lemma {:induction false} SortAsWrittenSucceeds(s: seq<SharedBadge>, t: seq<SharedBadge>)
    requires SortAsWritten(s) == Some(t)
    ensures multiset(t) == multiset(s)
    ensures forall k :: 0 <= k < |s| ==> AwareKey(s[k]) == AwareKey(s[0])
  {
    if s != [] {
      assert s == [s[0]] + s[1..];
      var t' :| SortAsWritten(s[1..]) == Some(t') && InsertAsWritten(s[0], t') == Some(t);
      SortAsWrittenSucceeds(s[1..], t');
      InsertAsWrittenSucceeds(s[0], t', t);
      if t' != [] {
        assert t'[0] in multiset(s[1..]);
        assert AwareKey(t'[0]) == AwareKey(s[1..][0]);
      }
    }
  }

  /** The discrepancy: a badge whose creation instant is offset-aware and a badge with
      no creation instant cannot be sorted as written, in any list holding both. */
  lemma MissingBesideAwareRaises(s: seq<SharedBadge>, i: nat, j: nat)
    requires i < |s| && j < |s|
    requires s[i].created.Some? && s[i].created.value.aware
    requires s[j].created.None?
    ensures SortAsWritten(s) == None
  {
    if SortAsWritten(s).Some? {
      SortAsWrittenSucceeds(s, SortAsWritten(s).value);
    }
  }

  /** Where a comparison as written does not raise, it agrees with the intended order. */
  lemma {:induction false} InsertAsWrittenAgrees(x: SharedBadge, s: seq<SharedBadge>)
    requires forall y :: y in s ==> AwareKey(y) == AwareKey(x)
    ensures InsertAsWritten(x, s) == Some(InsertNewestFirst(x, s))
    decreases |s|
  {
    if s != [] {
      assert s[0] in s;
      assert forall y :: y in s[1..] ==> y in s;
      InsertAsWrittenAgrees(x, s[1..]);
    }
  }

  /** On a list whose keys all have one awareness, the sort as written succeeds and
      yields the intended order. */
  lemma {:induction false} SortAsWrittenAgrees(s: seq<SharedBadge>, aware: bool)
    requires forall y :: y in s ==> AwareKey(y) == aware
    ensures SortAsWritten(s) == Some(SortNewestFirst(s))
  {
    if s != [] {
      assert forall y :: y in s[1..] ==> y in s;
      SortAsWrittenAgrees(s[1..], aware);
      var t := SortNewestFirst(s[1..]);
      assert forall y :: y in t ==> y in multiset(s[1..]);
      assert s[0] in s;
      InsertAsWrittenAgrees(s[0], t);
    }
  }
}
