/**
 * The contest service itself: the object that owns the pusher map and the archive
 * of daily winners and changes them in place. Each method follows the steps of the
 * service's own code and is proved against the functions of `Ledger` and `Archive`,
 * where the properties of the contest are proved.
 */
module ButtonContest {
  import opened Wrappers
  import opened JsMap
  import opened Ledger
  import opened Archive
  import JsArray
  import JsSort
  import JsString

  /** What `getDailyWinner` reports and `saveDailyWinner` takes. */
  datatype WinnerInfo = WinnerInfo(userId: int, name: string, dailyPushes: int, clicks: int, rank: int)

  class ButtonContestService {
    var pushers: Pushers
    var dailyWinnersHistory: seq<DailyWinner>

    ghost predicate Valid()
      reads this
    {
      ValidPushers(pushers)
    }

    /** A service with no pushers and an empty archive. */
    constructor()
      ensures Valid()
      ensures pushers == Empty() && dailyWinnersHistory == []
    {
      pushers := Empty();
      dailyWinnersHistory := [];
    }

    /**
     * `addClick(userId, userName)` at time `now`: a push inside the cooldown is
     * rejected with the minutes left and changes nothing; otherwise the user's record
     * is replaced by one with the counters raised.
     */
    method AddClick(userId: int, userName: string, now: int) returns (r: ClickResult)
      requires Valid()
      modifies this
      ensures Valid()
      ensures (pushers, r) == Click(old(pushers), userId, userName, now)
      ensures r.Accepted? <==> old(GetCooldownStatus(pushers, userId, now)).canPush
      ensures r.Rejected? ==> pushers == old(pushers)
      ensures dailyWinnersHistory == old(dailyWinnersHistory)
    {
      var pusher := pushers.Get(userId);
      if pusher.Some? {
        var timeSinceLastClick := now - pusher.value.lastClickTime;
        if timeSinceLastClick < COOLDOWN_MS {
          var minutesLeft := (COOLDOWN_MS - timeSinceLastClick + MS_PER_MINUTE - 1) / MS_PER_MINUTE;
          return Rejected(minutesLeft);
        }
      }
      var clicks := if pusher.Some? then pusher.value.clicks else 0;
      var spores := if pusher.Some? then pusher.value.sporesEarned else 0;
      var daily := if pusher.Some? then pusher.value.dailyPushes else 0;
      var newPusher := Pusher(userId, DisplayName(userId, userName), clicks + 1, now,
                              spores + SPORES_PER_PUSH, daily + 1);
      pushers := pushers.Set(userId, newPusher);
      r := Accepted(SPORES_PER_PUSH, newPusher.clicks);
    }

    /**
     * `getDailyWinner()`: none when no record has daily pushes (in particular when
     * there are no records); otherwise the day's leader with its stored name, daily
     * and total pushes and its place in the full leaderboard.
     */
    method GetDailyWinner() returns (r: Option<WinnerInfo>)
      requires Valid()
      ensures r.None? <==> forall k :: k in pushers.entries ==> pushers.entries[k].dailyPushes == 0
      ensures r.Some? ==>
        var u := r.value.userId;
        && IsDailyLeader(pushers, u)
        && r.value.name == pushers.entries[u].name
        && r.value.dailyPushes == pushers.entries[u].dailyPushes
        && r.value.clicks == pushers.entries[u].clicks
        && GetUserRank(pushers, u) == Some(RankInfo(r.value.rank, r.value.clicks))
    {
      var m := pushers;
      if m.Size() == 0 {
        return None;
      }
      var values := m.Values();
      var winner: Option<Pusher> := None;
      var maxDailyPushes := 0;
      ghost var wi := -1;
      var i := 0;
      while i < |values|
        invariant 0 <= i <= |values| && -1 <= wi < i
        invariant wi == -1 ==> winner.None? && maxDailyPushes == 0
        invariant wi == -1 ==> forall j :: 0 <= j < i ==> values[j].dailyPushes == 0
        invariant 0 <= wi ==> winner == Some(values[wi]) && maxDailyPushes == values[wi].dailyPushes > 0
        invariant 0 <= wi ==> forall j :: 0 <= j < i ==> values[j].dailyPushes <= maxDailyPushes
        invariant 0 <= wi ==> forall j :: 0 <= j < wi ==> values[j].dailyPushes < maxDailyPushes
      {
        var dailyPushes := values[i].dailyPushes;
        if dailyPushes > maxDailyPushes {
          maxDailyPushes := dailyPushes;
          winner := Some(values[i]);
          wi := i;
        }
        i := i + 1;
      }
      if winner.None? || maxDailyPushes == 0 {
        AllIdle(m, values);
        return None;
      }
      var w := winner.value;
      LeaderAt(m, wi, maxDailyPushes);
      var leaderboard := GetLeaderboard(m, m.Size());
      var rank := JsArray.FindIndex(leaderboard, UserIdOf, w.userId) + 1;
      r := Some(WinnerInfo(w.userId, w.name, maxDailyPushes, w.clicks, rank));
    }

    /**
     * `saveDailyWinner(winner)` with `isoNow` standing for `new Date().toISOString()`:
     * the archive gains exactly one entry, dated with the date part of the timestamp.
     */
    method SaveDailyWinner(winner: WinnerInfo, isoNow: string)
      modifies this
      ensures pushers == old(pushers)
      ensures dailyWinnersHistory == old(dailyWinnersHistory) +
        [DailyWinner(winner.userId, winner.name, winner.dailyPushes, winner.clicks, DatePart(isoNow), winner.rank)]
    {
      var dailyWinner := DailyWinner(winner.userId, winner.name, winner.dailyPushes, winner.clicks,
                                     DatePart(isoNow), winner.rank);
      dailyWinnersHistory := dailyWinnersHistory + [dailyWinner];
    }

    /** `resetDailyStats()`: every record's daily pushes set to 0, record by record. */
    method ResetDailyStats()
      requires Valid()
      modifies this
      ensures Valid()
      ensures pushers == ResetDaily(old(pushers))
      ensures dailyWinnersHistory == old(dailyWinnersHistory)
    {
      var keys := pushers.keys;
      var i := 0;
      while i < |keys|
        invariant 0 <= i <= |keys|
        invariant pushers.keys == keys && pushers.Valid()
        invariant pushers.entries.Keys == old(pushers.entries).Keys
        invariant forall j :: 0 <= j < i ==>
          pushers.entries[keys[j]] == old(pushers.entries)[keys[j]].(dailyPushes := 0)
        invariant forall j :: i <= j < |keys| ==> pushers.entries[keys[j]] == old(pushers.entries)[keys[j]]
        invariant dailyWinnersHistory == old(dailyWinnersHistory)
      {
        var k := keys[i];
        var pusher := pushers.entries[k];
        pushers := pushers.Set(k, pusher.(dailyPushes := 0));
        i := i + 1;
      }
      ResetByKeys(old(pushers), pushers);
    }

    /**
     * The in-memory branch of `getDailyWinsLeaderboard(limit)`: the archive is folded
     * into a map of per-user tallies, whose rows are then sorted and cut.
     */
    method GetDailyWinsLeaderboard(limit: int) returns (r: seq<WinsEntry>)
      ensures r == WinsLeaderboard(dailyWinnersHistory, limit)
      ensures ListedByWins(dailyWinnersHistory, r)
    {
      var h := dailyWinnersHistory;
      var winsMap: Tallies := Empty();
      var i := 0;
      while i < |h|
        invariant 0 <= i <= |h|
        invariant winsMap == TallyWins(h[..i])
      {
        TallyStep(h, i);
        winsMap := CountWin(winsMap, h[i]);
        i := i + 1;
      }
      assert h[..i] == h;
      r := JsArray.SliceTo(JsSort.SortDesc(Rows(winsMap), WinsOf), limit);
    }
  }

  /**
   * The `forEach` callback of the wins aggregation: a known user's wins go up by one
   * and the date is replaced when the new one is greater; an unknown user is added
   * with one win, this entry's name and its date.
   */
  method CountWin(winsMap: Tallies, winner: DailyWinner) returns (m: Tallies)
    requires winsMap.Valid()
    ensures m == AddWin(winsMap, winner)
  {
    var existing := winsMap.Get(winner.userId);
    if existing.Some? {
      var lastWinDate := existing.value.lastWinDate;
      if JsString.StrLess(lastWinDate, winner.date) {
        lastWinDate := winner.date;
      }
      m := winsMap.Set(winner.userId, Tally(existing.value.name, existing.value.wins + 1, lastWinDate));
    } else {
      m := winsMap.Set(winner.userId, Tally(winner.name, 1, winner.date));
    }
  }

  /** The aggregation one entry further on is one more turn of the loop. */
  lemma TallyStep(h: seq<DailyWinner>, i: int)
    requires 0 <= i < |h|
    ensures TallyWins(h[..i + 1]) == AddWin(TallyWins(h[..i]), h[i])
  {
    assert h[..i + 1][..i] == h[..i];
  }

  /** A scan that saw no daily pushes means no record has any. */
  lemma AllIdle(m: Pushers, values: seq<Pusher>)
    requires ValidPushers(m) && values == m.Values()
    requires forall j :: 0 <= j < |values| ==> values[j].dailyPushes == 0
    ensures forall k :: k in m.entries ==> m.entries[k].dailyPushes == 0
  {
    forall k | k in m.entries
      ensures m.entries[k].dailyPushes == 0
    {
      var q := KeyIndex(m, k);
      assert values[q] == m.entries[k];
    }
  }

  /** The record the scan kept leads the day. */
  lemma LeaderAt(m: Pushers, wi: int, best: nat)
    requires ValidPushers(m) && 0 <= wi < |m.keys|
    requires m.Values()[wi].dailyPushes == best > 0
    requires forall j :: 0 <= j < |m.keys| ==> m.Values()[j].dailyPushes <= best
    requires forall j :: 0 <= j < wi ==> m.Values()[j].dailyPushes < best
    ensures m.Values()[wi].userId == m.keys[wi]
    ensures IsDailyLeader(m, m.keys[wi])
  {
    var u := m.keys[wi];
    var vs := m.Values();
    assert KeyIndex(m, u) == wi;
    forall k | k in m.entries
      ensures m.entries[k].dailyPushes <= best
    {
      assert vs[KeyIndex(m, k)] == m.entries[k];
    }
  }

  /** Resetting each listed record in turn gives the reset map. */
  lemma ResetByKeys(before: Pushers, after: Pushers)
    requires ValidPushers(before) && after.Valid()
    requires after.keys == before.keys && after.entries.Keys == before.entries.Keys
    requires forall j :: 0 <= j < |before.keys| ==>
      after.entries[before.keys[j]] == before.entries[before.keys[j]].(dailyPushes := 0)
    ensures after == ResetDaily(before) && ValidPushers(after)
  {
    forall k | k in before.entries
      ensures after.entries[k] == before.entries[k].(dailyPushes := 0)
    {
      assert after.entries[before.keys[KeyIndex(before, k)]] == before.entries[k].(dailyPushes := 0);
    }
    ResetKeepsEverythingElse(before);
  }
}
