/**
 * The button pushers of the contest: one record per user, the cooldown rule that
 * gates a push, what a push changes, the daily reset, and the ranking by total
 * pushes. Every operation here is a function of the pusher map; the service class
 * holds that map and updates it with these functions as its specification.
 */
module Ledger {
  import opened Wrappers
  import opened JsMap
  import JsArray
  import JsSort
  import JsString

  /** A user may push once every 30 minutes. */
  const COOLDOWN_MS: int := 30 * 60 * 1000
  /** Spores awarded for each accepted push. */
  const SPORES_PER_PUSH: nat := 10
  const MS_PER_MINUTE: int := 60 * 1000

  datatype Pusher = Pusher(
    userId: int,
    name: string,
    clicks: nat,          // accepted pushes since the record was created
    lastClickTime: int,   // milliseconds, the time of the last accepted push
    sporesEarned: nat,
    dailyPushes: nat)     // accepted pushes since the last daily reset

  /** The service's `pushers` map, keyed by user id, in insertion order. */
  type Pushers = OrderedMap<Pusher>

  /** What holds of every record the service stores. */
  ghost predicate RecordOk(k: int, p: Pusher) {
    && p.userId == k
    && p.clicks >= 1
    && p.dailyPushes <= p.clicks
    && p.sporesEarned == SPORES_PER_PUSH * p.clicks
  }

  ghost predicate ValidPushers(m: Pushers) {
    m.Valid() && forall k :: k in m.entries ==> RecordOk(k, m.entries[k])
  }

  // ---------------------------------------------------------------------------
  // Cooldown

  /** `Math.ceil((COOLDOWN_MS - elapsed) / 60000)`: whole minutes until the cooldown ends. */
  function MinutesLeft(elapsed: int): (m: int)
    requires elapsed < COOLDOWN_MS
    ensures m >= 1
    ensures (m - 1) * MS_PER_MINUTE < COOLDOWN_MS - elapsed <= m * MS_PER_MINUTE
    ensures 0 <= elapsed ==> m <= 30
  {
    (COOLDOWN_MS - elapsed + MS_PER_MINUTE - 1) / MS_PER_MINUTE
  }

  datatype CooldownStatus = CooldownStatus(canPush: bool, minutesLeft: int)

  /** `getCooldownStatus(userId)` at time `now`; it reads the map and changes nothing. */
  function GetCooldownStatus(m: Pushers, userId: int, now: int): (s: CooldownStatus)
    ensures s.canPush <==> userId !in m.entries || now - m.entries[userId].lastClickTime >= COOLDOWN_MS
    ensures s.canPush ==> s.minutesLeft == 0
    ensures !s.canPush ==>
      var remaining := COOLDOWN_MS - (now - m.entries[userId].lastClickTime);
      s.minutesLeft >= 1 && (s.minutesLeft - 1) * MS_PER_MINUTE < remaining <= s.minutesLeft * MS_PER_MINUTE
  {
    match m.Get(userId)
    case None => CooldownStatus(true, 0)
    case Some(p) =>
      var elapsed := now - p.lastClickTime;
      if elapsed >= COOLDOWN_MS then CooldownStatus(true, 0)
      else CooldownStatus(false, MinutesLeft(elapsed))
  }

  // ---------------------------------------------------------------------------
  // Pushing the button

  /** The outcome of `addClick`: a rejection with the minutes still to wait, or an accepted push. */
  datatype ClickResult =
    | Rejected(cooldownMinutes: int)
    | Accepted(sporesAwarded: nat, totalPushes: nat)  // totalPushes: the count the success message reports

  /** `userName || \`User ${userId}\``: the name stored with a push. */
  function DisplayName(userId: int, userName: string): (name: string)
    ensures name != ""
    ensures userName != "" ==> name == userName
  {
    if userName != "" then userName else "User " + JsString.IntToString(userId)
  }

  /** `addClick(userId, userName)` at time `now`: the new pusher map and the result. */
  function Click(m: Pushers, userId: int, userName: string, now: int): (out: (Pushers, ClickResult))
    requires ValidPushers(m)
    ensures ValidPushers(out.0)
  {
    var prev := m.Get(userId);
    if prev.Some? && now - prev.value.lastClickTime < COOLDOWN_MS then
      (m, Rejected(MinutesLeft(now - prev.value.lastClickTime)))
    else
      var p := Pusher(
        userId,
        DisplayName(userId, userName),
        (if prev.Some? then prev.value.clicks else 0) + 1,
        now,
        (if prev.Some? then prev.value.sporesEarned else 0) + SPORES_PER_PUSH,
        (if prev.Some? then prev.value.dailyPushes else 0) + 1);
      (m.Set(userId, p), Accepted(SPORES_PER_PUSH, p.clicks))
  }

  /** A user's total pushes, 0 without a record. */
  function ClicksOr0(m: Pushers, userId: int): nat {
    if userId in m.entries then m.entries[userId].clicks else 0
  }

  function SporesOr0(m: Pushers, userId: int): nat {
    if userId in m.entries then m.entries[userId].sporesEarned else 0
  }

  function DailyOr0(m: Pushers, userId: int): nat {
    if userId in m.entries then m.entries[userId].dailyPushes else 0
  }

  /** A push is accepted exactly when the cooldown status says the user can push. */
  lemma ClickFollowsCooldownStatus(m: Pushers, userId: int, userName: string, now: int)
    requires ValidPushers(m)
    ensures var (m', r) := Click(m, userId, userName, now);
      var s := GetCooldownStatus(m, userId, now);
      && (r.Accepted? <==> s.canPush)
      && (r.Rejected? ==> r.cooldownMinutes == s.minutesLeft && r.cooldownMinutes >= 1 && m' == m)
  {
  }

  /**
   * An accepted push raises the user's total and daily pushes by one and spores by
   * SPORES_PER_PUSH (from 0 for a new user), stamps the time, stores the display name,
   * appends a new user at the end of the insertion order, and leaves every other
   * record as it was.
   */
  lemma AcceptedClick(m: Pushers, userId: int, userName: string, now: int)
    requires ValidPushers(m)
    requires GetCooldownStatus(m, userId, now).canPush
    ensures var (m', r) := Click(m, userId, userName, now);
      && userId in m'.entries
      && m'.entries[userId].clicks == ClicksOr0(m, userId) + 1
      && m'.entries[userId].dailyPushes == DailyOr0(m, userId) + 1
      && m'.entries[userId].sporesEarned == SporesOr0(m, userId) + SPORES_PER_PUSH
      && m'.entries[userId].lastClickTime == now
      && m'.entries[userId].name == DisplayName(userId, userName)
      && r == Accepted(SPORES_PER_PUSH, m'.entries[userId].clicks)
      && m'.keys == (if userId in m.entries then m.keys else m.keys + [userId])
      && (forall k :: k != userId ==> m'.Get(k) == m.Get(k))
  {
  }

  /** Placeholder names of different users differ, so an unnamed user is still told apart. */
  lemma PlaceholderNamesDiffer(a: int, b: int)
    requires a != b
    ensures DisplayName(a, "") != DisplayName(b, "")
  {
    JsString.IntRoundTrip(a);
    JsString.IntRoundTrip(b);
    assert DisplayName(a, "")[5..] == JsString.IntToString(a);
    assert DisplayName(b, "")[5..] == JsString.IntToString(b);
  }

  /**
   * Two pushes by one user at `t0 <= t1`, the first accepted: the second is accepted
   * exactly when a whole cooldown window has passed, and otherwise is told to wait
   * between 1 and 30 minutes.
   */
  lemma CooldownWindow(m: Pushers, userId: int, name0: string, name1: string, t0: int, t1: int)
    requires ValidPushers(m)
    requires t0 <= t1
    requires Click(m, userId, name0, t0).1.Accepted?
    ensures var m1 := Click(m, userId, name0, t0).0;
      var r := Click(m1, userId, name1, t1).1;
      && (r.Accepted? <==> t1 - t0 >= COOLDOWN_MS)
      && (r.Rejected? ==> 1 <= r.cooldownMinutes <= 30)
  {
  }

  /** A sequence of push attempts, as the service receives them. */
  datatype PushAttempt = PushAttempt(userId: int, userName: string, now: int)

  /** The pusher map and the results after `attempts`, in order. */
  function Replay(m: Pushers, attempts: seq<PushAttempt>): (out: (Pushers, seq<ClickResult>))
    requires ValidPushers(m)
    ensures ValidPushers(out.0)
    ensures |out.1| == |attempts|
  {
    if attempts == [] then (m, [])
    else
      var (m1, rs) := Replay(m, attempts[..|attempts| - 1]);
      var a := attempts[|attempts| - 1];
      var (m2, r) := Click(m1, a.userId, a.userName, a.now);
      (m2, rs + [r])
  }

  /** How many of the attempts by `userId` were accepted. */
  function AcceptedCount(attempts: seq<PushAttempt>, results: seq<ClickResult>, userId: int): nat
    requires |results| == |attempts|
  {
    if attempts == [] then 0
    else
      var n := |attempts| - 1;
      AcceptedCount(attempts[..n], results[..n], userId)
      + (if attempts[n].userId == userId && results[n].Accepted? then 1 else 0)
  }

  /**
   * However accepted and rejected attempts interleave, a user's total pushes grow by
   * the number of their accepted attempts and their spores by SPORES_PER_PUSH for each.
   */
  lemma {:induction false} ReplayCountsPushes(m: Pushers, attempts: seq<PushAttempt>, userId: int)
    requires ValidPushers(m)
    ensures var (m', rs) := Replay(m, attempts);
      && ClicksOr0(m', userId) == ClicksOr0(m, userId) + AcceptedCount(attempts, rs, userId)
      && SporesOr0(m', userId) == SporesOr0(m, userId) + SPORES_PER_PUSH * AcceptedCount(attempts, rs, userId)
  {
    if attempts != [] {
      var n := |attempts| - 1;
      ReplayCountsPushes(m, attempts[..n], userId);
      var (m1, rs) := Replay(m, attempts[..n]);
      var a := attempts[n];
      var (m2, r) := Click(m1, a.userId, a.userName, a.now);
      assert Replay(m, attempts) == (m2, rs + [r]);
      assert (rs + [r])[..n] == rs;
      if a.userId == userId && r.Accepted? {
        AcceptedClick(m1, a.userId, a.userName, a.now);
      } else if a.userId != userId {
        assert m2.Get(userId) == m1.Get(userId);
      }
    }
  }

  // ---------------------------------------------------------------------------
  // Daily reset

  /** `resetDailyStats()`: every record's daily pushes set to 0. */
  function ResetDaily(m: Pushers): (r: Pushers)
    ensures r.keys == m.keys
    ensures forall k :: k in r.entries <==> k in m.entries
    ensures forall k :: k in r.entries ==> r.entries[k].dailyPushes == 0
  {
    OrderedMap(m.keys, map k | k in m.entries :: m.entries[k].(dailyPushes := 0))
  }

  /** The reset zeroes the daily pushes and keeps the keys, their order and every other field. */
  lemma ResetKeepsEverythingElse(m: Pushers)
    requires ValidPushers(m)
    ensures var r := ResetDaily(m);
      && ValidPushers(r)
      && r.keys == m.keys
      && (forall k :: k in r.entries <==> k in m.entries)
      && (forall k :: k in m.entries ==>
            && r.entries[k].dailyPushes == 0
            && r.entries[k].userId == m.entries[k].userId
            && r.entries[k].name == m.entries[k].name
            && r.entries[k].clicks == m.entries[k].clicks
            && r.entries[k].lastClickTime == m.entries[k].lastClickTime
            && r.entries[k].sporesEarned == m.entries[k].sporesEarned)
  {
  }

  lemma ResetIsIdempotent(m: Pushers)
    ensures ResetDaily(ResetDaily(m)) == ResetDaily(m)
  {
  }

  // ---------------------------------------------------------------------------
  // Ranking

  function ClicksOf(p: Pusher): int { p.clicks }

  function UserIdOf(p: Pusher): int { p.userId }

  /** The records in the map's insertion order carry distinct user ids. */
  lemma ValuesHaveDistinctIds(m: Pushers)
    requires ValidPushers(m)
    ensures JsSort.DistinctIds(m.Values(), UserIdOf)
  {
  }

  /**
   * `r` lists stored records, each user at most once, by total pushes with the most
   * first, and no record left out has more pushes than one listed.
   */
  ghost predicate ListedByClicks(m: Pushers, r: seq<Pusher>) {
    && (forall i :: 0 <= i < |r| ==> r[i].userId in m.entries && m.entries[r[i].userId] == r[i])
    && (forall i, j :: 0 <= i < j < |r| ==> r[i].clicks >= r[j].clicks)
    && (forall i, j :: 0 <= i < j < |r| ==> r[i].userId != r[j].userId)
    && (forall i, k :: 0 <= i < |r| && k in m.entries && m.entries[k].clicks > r[i].clicks ==>
          m.entries[k] in r[..i])
  }

  /** A rearrangement of the map's records holds stored records only. */
  lemma RearrangedRecordsStored(m: Pushers, t: seq<Pusher>, i: int)
    requires ValidPushers(m)
    requires multiset(t) == multiset(m.Values()) && 0 <= i < |t|
    ensures t[i].userId in m.entries && m.entries[t[i].userId] == t[i]
  {
    var vs := m.Values();
    assert t[i] in multiset(vs);
    var q :| 0 <= q < |vs| && vs[q] == t[i];
    assert m.keys[q] in m.entries;
  }

  /** In a sorted rearrangement, a record with more pushes than position `i` comes before it. */
  lemma SortedRecordsAbove(m: Pushers, t: seq<Pusher>, i: int, k: int)
    requires ValidPushers(m)
    requires multiset(t) == multiset(m.Values()) && JsSort.SortedDesc(t, ClicksOf)
    requires 0 <= i < |t| && k in m.entries && m.entries[k].clicks > t[i].clicks
    ensures m.entries[k] in t[..i]
  {
    var vs := m.Values();
    var q := KeyIndex(m, k);
    assert vs[q] == m.entries[k];
    assert m.entries[k] in multiset(t);
    JsSort.AboveComesFirst(t, ClicksOf, m.entries[k], i);
    var j :| 0 <= j < i && t[j] == m.entries[k];
    assert t[..i][j] == t[j];
  }

  /** A sorted rearrangement of the map's records, with distinct ids, lists them by clicks. */
  lemma SortedRecords(m: Pushers, t: seq<Pusher>)
    requires ValidPushers(m)
    requires multiset(t) == multiset(m.Values())
    requires JsSort.SortedDesc(t, ClicksOf) && JsSort.DistinctIds(t, UserIdOf)
    ensures ListedByClicks(m, t)
  {
    forall i | 0 <= i < |t|
      ensures t[i].userId in m.entries && m.entries[t[i].userId] == t[i]
    {
      RearrangedRecordsStored(m, t, i);
    }
    forall i, k | 0 <= i < |t| && k in m.entries && m.entries[k].clicks > t[i].clicks
      ensures m.entries[k] in t[..i]
    {
      SortedRecordsAbove(m, t, i, k);
    }
  }

  lemma PrefixListed(m: Pushers, t: seq<Pusher>, n: nat)
    requires ListedByClicks(m, t) && n <= |t|
    ensures ListedByClicks(m, t[..n])
  {
    var r := t[..n];
    forall i, k | 0 <= i < |r| && k in m.entries && m.entries[k].clicks > r[i].clicks
      ensures m.entries[k] in r[..i]
    {
      assert r[i] == t[i];
      assert r[..i] == t[..i];
    }
  }

  /**
   * `getLeaderboard(limit)`: the records by total pushes, most first, cut to `limit`
   * with the clamping of `slice(0, limit)`.
   */
  function GetLeaderboard(m: Pushers, limit: int): (r: seq<Pusher>)
    requires ValidPushers(m)
    ensures 0 <= limit ==> |r| == JsArray.Min(limit, m.Size())
    ensures limit < 0 ==> |r| == JsArray.Max(m.Size() + limit, 0)
    ensures ListedByClicks(m, r)
    ensures forall i :: 0 <= i < |r| ==> i + 1 == RankFormula(m, r[i].userId).rank
  {
    LeaderboardFacts(m, limit);
    JsArray.SliceTo(JsSort.SortDesc(m.Values(), ClicksOf), limit)
  }

  /** The facts `GetLeaderboard` promises, about its defining expression. */
  lemma LeaderboardFacts(m: Pushers, limit: int)
    requires ValidPushers(m)
    ensures var r := JsArray.SliceTo(JsSort.SortDesc(m.Values(), ClicksOf), limit);
      && ListedByClicks(m, r)
      && forall i :: 0 <= i < |r| ==> i + 1 == RankFormula(m, r[i].userId).rank
  {
    var t := JsSort.SortDesc(m.Values(), ClicksOf);
    ValuesHaveDistinctIds(m);
    JsSort.SortKeepsDistinctIds(m.Values(), ClicksOf, UserIdOf);
    SortedRecords(m, t);
    BoardPlacesAreRanks(m);
    var r := JsArray.SliceTo(t, limit);
    PrefixListed(m, t, |r|);
    assert forall i :: 0 <= i < |r| ==> r[i] == t[i];
  }

  /** Place `i + 1` of the full sorted board is held by the user whose rank is `i + 1`. */
  lemma BoardPlaceIsRank(m: Pushers, i: int)
    requires ValidPushers(m) && 0 <= i < m.Size()
    ensures var t := JsSort.SortDesc(m.Values(), ClicksOf);
      t[i].userId in m.entries && i + 1 == RankFormula(m, t[i].userId).rank
  {
    var vs := m.Values();
    var t := JsSort.SortDesc(vs, ClicksOf);
    ValuesHaveDistinctIds(m);
    JsSort.SortKeepsDistinctIds(vs, ClicksOf, UserIdOf);
    RearrangedRecordsStored(m, t, i);
    var q := KeyIndex(m, t[i].userId);
    assert vs[q] == t[i];
    JsSort.SortedPosition(vs, ClicksOf, UserIdOf, q);
    JsSort.FindOwnIndex(t, UserIdOf, i);
  }

  lemma BoardPlacesAreRanks(m: Pushers)
    requires ValidPushers(m)
    ensures var t := JsSort.SortDesc(m.Values(), ClicksOf);
      forall i :: 0 <= i < |t| ==> t[i].userId in m.entries && i + 1 == RankFormula(m, t[i].userId).rank
  {
    var t := JsSort.SortDesc(m.Values(), ClicksOf);
    forall i | 0 <= i < |t|
      ensures t[i].userId in m.entries && i + 1 == RankFormula(m, t[i].userId).rank
    {
      BoardPlaceIsRank(m, i);
    }
  }

  /** Of two users tied on total pushes, a board cut to one row keeps the one inserted first. */
  lemma TieAtCutKeepsEarlier()
    ensures var p1 := Pusher(1, "Ann", 1, 0, SPORES_PER_PUSH, 1);
      var p2 := Pusher(2, "Bob", 1, 0, SPORES_PER_PUSH, 1);
      var m := OrderedMap([1, 2], map[1 := p1, 2 := p2]);
      ValidPushers(m) && GetLeaderboard(m, 1) == [p1]
  {
    var p1 := Pusher(1, "Ann", 1, 0, SPORES_PER_PUSH, 1);
    var p2 := Pusher(2, "Bob", 1, 0, SPORES_PER_PUSH, 1);
    var m := OrderedMap([1, 2], map[1 := p1, 2 := p2]);
    assert ValidPushers(m);
    var vs := m.Values();
    assert vs == [p1, p2];
    assert JsSort.CountAbove(vs[1..], ClicksOf, 1) == 0;
    assert JsSort.CountAbove(vs, ClicksOf, 1) == 0;
    assert KeyIndex(m, 2) == 1;
    assert vs[..1] == [p1];
    assert RankFormula(m, 2).rank == 2;
    var r := GetLeaderboard(m, 1);
    assert |r| == 1 && r[0].userId in m.entries;
    assert r[0].userId != 2;
  }

  datatype RankInfo = RankInfo(rank: int, clicks: int)

  /**
   * `getUserRank(userId)`: null exactly for a user without a record; otherwise the
   * stored total and the 1-based place in the full leaderboard. Equal totals keep
   * insertion order, so the place is one more than the number of users with more
   * pushes plus the number of users with as many pushes who were inserted earlier.
   */
  function GetUserRank(m: Pushers, userId: int): (r: Option<RankInfo>)
    requires ValidPushers(m)
    ensures r.None? <==> userId !in m.entries
    ensures r.Some? ==> r.value == RankFormula(m, userId) && 1 <= r.value.rank <= m.Size()
  {
    match m.Get(userId)
    case None => None
    case Some(p) =>
      var board := GetLeaderboard(m, m.Size());
      RankPosition(m, userId);
      Some(RankInfo(JsArray.FindIndex(board, UserIdOf, userId) + 1, p.clicks))
  }

  lemma RankPosition(m: Pushers, userId: int)
    requires ValidPushers(m) && userId in m.entries
    ensures var c := m.entries[userId].clicks;
      JsArray.FindIndex(GetLeaderboard(m, m.Size()), UserIdOf, userId)
        == JsSort.CountAbove(m.Values(), ClicksOf, c) + JsSort.CountEqual(m.Values()[..KeyIndex(m, userId)], ClicksOf, c)
  {
    var vs := m.Values();
    assert GetLeaderboard(m, m.Size()) == JsSort.SortDesc(vs, ClicksOf);
    ValuesHaveDistinctIds(m);
    JsSort.SortedPosition(vs, ClicksOf, UserIdOf, KeyIndex(m, userId));
  }

  /** The insertion index of a user with a record. */
  function KeyIndex(m: Pushers, userId: int): (i: nat)
    requires ValidPushers(m) && userId in m.entries
    ensures i < |m.keys| && m.keys[i] == userId
  {
    assert userId in m.keys;
    var i :| 0 <= i < |m.keys| && m.keys[i] == userId;
    i
  }

  /** The rank of a user with a record, in closed form. */
  function RankFormula(m: Pushers, userId: int): RankInfo
    requires ValidPushers(m) && userId in m.entries
  {
    var c := m.entries[userId].clicks;
    RankInfo(1 + JsSort.CountAbove(m.Values(), ClicksOf, c)
               + JsSort.CountEqual(m.Values()[..KeyIndex(m, userId)], ClicksOf, c), c)
  }

  lemma SameKeyIndex(m1: Pushers, m2: Pushers, userId: int)
    requires ValidPushers(m1) && ValidPushers(m2)
    requires m1.keys == m2.keys && userId in m1.entries
    ensures userId in m2.entries && KeyIndex(m1, userId) == KeyIndex(m2, userId)
  {
    var i, i2 := KeyIndex(m1, userId), KeyIndex(m2, userId);
    assert m1.keys[i] == m1.keys[i2];
  }

  /** The counts behind a rank depend on the insertion order and the total pushes only. */
  lemma CountsFollowClicks(m1: Pushers, m2: Pushers, i: nat, c: int)
    requires ValidPushers(m1) && ValidPushers(m2)
    requires m1.keys == m2.keys && i <= |m1.keys|
    requires forall k :: k in m1.entries ==> m1.entries[k].clicks == m2.entries[k].clicks
    ensures JsSort.CountAbove(m1.Values(), ClicksOf, c) == JsSort.CountAbove(m2.Values(), ClicksOf, c)
    ensures JsSort.CountEqual(m1.Values()[..i], ClicksOf, c) == JsSort.CountEqual(m2.Values()[..i], ClicksOf, c)
  {
    var v1, v2 := m1.Values(), m2.Values();
    forall j | 0 <= j < |v1|
      ensures ClicksOf(v1[j]) == ClicksOf(v2[j])
    {
      assert m1.keys[j] in m1.entries;
    }
    JsSort.CountsFollowKeys(v1, ClicksOf, v2, ClicksOf, c);
    JsSort.CountsFollowKeys(v1[..i], ClicksOf, v2[..i], ClicksOf, c);
  }

  lemma FormulaFollowsClicks(m1: Pushers, m2: Pushers, userId: int)
    requires ValidPushers(m1) && ValidPushers(m2) && userId in m1.entries
    requires m1.keys == m2.keys
    requires forall k :: k in m1.entries ==> m1.entries[k].clicks == m2.entries[k].clicks
    ensures userId in m2.entries && RankFormula(m1, userId) == RankFormula(m2, userId)
  {
    SameKeyIndex(m1, m2, userId);
    CountsFollowClicks(m1, m2, KeyIndex(m1, userId), m1.entries[userId].clicks);
  }

  /** A rank depends on the insertion order and the total pushes only. */
  lemma RankFollowsClicks(m1: Pushers, m2: Pushers, userId: int)
    requires ValidPushers(m1) && ValidPushers(m2)
    requires m1.keys == m2.keys
    requires forall k :: k in m1.entries ==> m1.entries[k].clicks == m2.entries[k].clicks
    ensures GetUserRank(m1, userId) == GetUserRank(m2, userId)
  {
    if userId in m1.entries {
      FormulaFollowsClicks(m1, m2, userId);
    }
  }

  /** The only user with a record ranks first. */
  lemma SoleUserRanksFirst(m: Pushers, userId: int)
    requires ValidPushers(m) && userId in m.entries && m.Size() == 1
    ensures GetUserRank(m, userId) == Some(RankInfo(1, m.entries[userId].clicks))
  {
    assert KeyIndex(m, userId) == 0;
    assert m.Values() == [m.entries[userId]];
    assert m.Values()[1..] == [];
  }

  /** The daily reset changes no one's overall rank. */
  lemma ResetKeepsRanks(m: Pushers, userId: int)
    requires ValidPushers(m)
    ensures ValidPushers(ResetDaily(m))
    ensures GetUserRank(ResetDaily(m), userId) == GetUserRank(m, userId)
  {
    ResetKeepsEverythingElse(m);
    RankFollowsClicks(ResetDaily(m), m, userId);
  }

  // ---------------------------------------------------------------------------
  // Daily leader

  /**
   * `u` leads the day: a positive daily count that no record exceeds, and strictly
   * above every record inserted before `u` (the scan keeps the first maximum).
   */
  ghost predicate IsDailyLeader(m: Pushers, u: int)
    requires ValidPushers(m)
  {
    && u in m.entries
    && m.entries[u].dailyPushes > 0
    && (forall k :: k in m.entries ==> m.entries[k].dailyPushes <= m.entries[u].dailyPushes)
    && (forall j :: 0 <= j < KeyIndex(m, u) ==> m.entries[m.keys[j]].dailyPushes < m.entries[u].dailyPushes)
  }

  /** A day has at most one leader. */
  lemma DailyLeaderUnique(m: Pushers, u: int, v: int)
    requires ValidPushers(m) && IsDailyLeader(m, u) && IsDailyLeader(m, v)
    ensures u == v
  {
    var i, j := KeyIndex(m, u), KeyIndex(m, v);
    assert m.keys[i] == u && m.keys[j] == v;
  }

  /** When some record has daily pushes, the first record with the largest count leads the day. */
  lemma {:induction false} DailyLeaderExists(m: Pushers, k: int)
    requires ValidPushers(m) && k in m.entries && m.entries[k].dailyPushes > 0
    ensures exists u :: IsDailyLeader(m, u)
  {
    var vs := m.Values();
    var best := 0;
    var i := 1;
    while i < |vs|
      invariant 1 <= i <= |vs| && 0 <= best < i
      invariant forall j :: 0 <= j < i ==> vs[j].dailyPushes <= vs[best].dailyPushes
      invariant forall j :: 0 <= j < best ==> vs[j].dailyPushes < vs[best].dailyPushes
    {
      if vs[i].dailyPushes > vs[best].dailyPushes {
        best := i;
      }
      i := i + 1;
    }
    var u := m.keys[best];
    assert KeyIndex(m, u) == best;
    forall k' | k' in m.entries
      ensures m.entries[k'].dailyPushes <= m.entries[u].dailyPushes
    {
      var q := KeyIndex(m, k');
      assert vs[q] == m.entries[k'];
    }
    assert IsDailyLeader(m, u);
  }

  /** Right after the daily reset nobody leads the day. */
  lemma ResetLeavesNoLeader(m: Pushers, u: int)
    requires ValidPushers(m)
    ensures ValidPushers(ResetDaily(m)) && !IsDailyLeader(ResetDaily(m), u)
  {
    ResetKeepsEverythingElse(m);
  }

  /** An accepted push makes the day have a leader. */
  lemma AcceptedPushMakesLeader(m: Pushers, userId: int, userName: string, now: int)
    requires ValidPushers(m)
    requires GetCooldownStatus(m, userId, now).canPush
    ensures ValidPushers(Click(m, userId, userName, now).0)
    ensures exists u :: IsDailyLeader(Click(m, userId, userName, now).0, u)
  {
    AcceptedClick(m, userId, userName, now);
    DailyLeaderExists(Click(m, userId, userName, now).0, userId);
  }

  /**
   * One user's first pushes: accepted at minute 0, told to wait 20 minutes at minute
   * 10, accepted again at minute 31, leaving a single record with two pushes.
   */
  lemma OneUserPushes()
    ensures var c1 := Click(Empty(), 1, "Alice", 0);
      var c2 := Click(c1.0, 1, "Alice", 10 * MS_PER_MINUTE);
      var c3 := Click(c2.0, 1, "Alice", 31 * MS_PER_MINUTE);
      && c1.1 == Accepted(SPORES_PER_PUSH, 1)
      && c2.1 == Rejected(20)
      && c3.1 == Accepted(SPORES_PER_PUSH, 2)
      && c3.0 == OrderedMap([1], map[1 := Pusher(1, "Alice", 2, 31 * MS_PER_MINUTE, 2 * SPORES_PER_PUSH, 2)])
  {
    var c1 := Click(Empty(), 1, "Alice", 0);
    assert c1.0 == OrderedMap([1], map[1 := Pusher(1, "Alice", 1, 0, SPORES_PER_PUSH, 1)]);
    assert MinutesLeft(10 * MS_PER_MINUTE) == 20 by {
      assert COOLDOWN_MS - 10 * MS_PER_MINUTE + MS_PER_MINUTE - 1 == 1259999;
    }
  }

  /**
   * With that single record, the user ranks first with two pushes and leads the day,
   * until the daily reset leaves the day without a leader.
   */
  lemma OneUserStandings(m: Pushers)
    requires m == OrderedMap([1], map[1 := Pusher(1, "Alice", 2, 31 * MS_PER_MINUTE, 2 * SPORES_PER_PUSH, 2)])
    ensures ValidPushers(m)
    ensures GetUserRank(m, 1) == Some(RankInfo(1, 2))
    ensures IsDailyLeader(m, 1) && !IsDailyLeader(ResetDaily(m), 1)
  {
    SoleUserRanksFirst(m, 1);
    assert KeyIndex(m, 1) == 0;
    ResetLeavesNoLeader(m, 1);
  }
}
