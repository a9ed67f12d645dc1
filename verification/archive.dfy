/**
 * The daily winners' archive: the snapshots `saveDailyWinner` appends, the
 * in-memory history view (`slice(-limit).reverse()`), and the in-memory "daily
 * wins" leaderboard that groups the snapshots by user.
 */
module Archive {
  import opened Wrappers
  import opened JsMap
  import JsArray
  import JsSort
  import JsString

  /** One archived day: who led it, with what, and on which date (`YYYY-MM-DD`). */
  datatype DailyWinner = DailyWinner(
    userId: int,
    name: string,
    dailyPushes: int,
    totalPushes: int,
    date: string,
    rank: int)

  /** `iso.split('T')[0]`: the text before the first `T`, or all of it when there is none. */
  function DatePart(iso: string): (d: string)
    ensures d <= iso
    ensures 'T' !in d
    ensures |d| < |iso| ==> iso[|d|] == 'T'
  {
    if iso == [] || iso[0] == 'T' then [] else [iso[0]] + DatePart(iso[1..])
  }

  /** An ISO timestamp `YYYY-MM-DDTHH:mm:ss.sssZ` yields its first ten characters. */
  lemma IsoTimestampDate(iso: string)
    requires |iso| > 10 && iso[10] == 'T'
    requires forall i :: 0 <= i < 10 ==> iso[i] != 'T'
    ensures DatePart(iso) == iso[..10]
  {
  }

  // ---------------------------------------------------------------------------
  // History

  /**
   * The in-memory branch of `getDailyWinnersHistory(limit)`:
   * `history.slice(-limit).reverse()`, the most recent entry first.
   */
  function GetDailyWinnersHistory(history: seq<DailyWinner>, limit: int): (r: seq<DailyWinner>)
    ensures 1 <= limit ==> |r| == JsArray.Min(limit, |history|)
    ensures limit == 0 ==> |r| == |history|
    ensures limit < 0 ==> |r| == JsArray.Max(|history| + limit, 0)
    ensures forall k :: 0 <= k < |r| ==> r[k] == history[|history| - 1 - k]
  {
    JsArray.Reverse(JsArray.SliceFrom(history, -limit))
  }

  /**
   * A winner just appended heads every history view with a positive limit, and
   * behind it comes the view of the earlier history with a limit one smaller.
   * (With limit 1 that smaller limit would be 0, and `slice(-0)` is the whole array,
   * so the one-entry view stands apart.)
   */
  lemma SavedWinnerFirst(history: seq<DailyWinner>, w: DailyWinner, limit: int)
    requires 1 <= limit
    ensures var v := GetDailyWinnersHistory(history + [w], limit);
      && (limit == 1 ==> v == [w])
      && (limit >= 2 ==> v == [w] + GetDailyWinnersHistory(history, limit - 1))
  {
    if limit == 1 {
      var h := history + [w];
      assert h[|h| - 1] == w;
    } else {
      JsArray.SliceFromSnoc(history, w, limit);
      JsArray.ReverseSnoc(JsArray.SliceFrom(history, -(limit - 1)), w);
    }
  }

  // ---------------------------------------------------------------------------
  // Daily wins

  /** A row of the daily-wins leaderboard. */
  datatype WinsEntry = WinsEntry(userId: int, name: string, wins: nat, lastWinDate: string)

  /** The value the aggregation keeps per user while it walks the history. */
  datatype Tally = Tally(name: string, wins: nat, lastWinDate: string)

  type Tallies = OrderedMap<Tally>

  function WinnerId(w: DailyWinner): int { w.userId }

  function EntryId(e: WinsEntry): int { e.userId }

  function WinsOf(e: WinsEntry): int { e.wins }

  /** How many archived days `u` won. */
  function WinCount(h: seq<DailyWinner>, u: int): nat {
    if h == [] then 0
    else WinCount(h[..|h| - 1], u) + (if h[|h| - 1].userId == u then 1 else 0)
  }

  /** `d` is one of `u`'s winning dates and none of them is later under string `>`. */
  ghost predicate IsLatestDate(h: seq<DailyWinner>, u: int, d: string) {
    && (exists i :: 0 <= i < |h| && h[i].userId == u && h[i].date == d)
    && (forall i :: 0 <= i < |h| && h[i].userId == u ==> !JsString.StrLess(d, h[i].date))
  }

  /**
   * One turn of the aggregation loop: a known user's wins go up by one and the date
   * is replaced when the new one is greater; an unknown user starts at one win with
   * this entry's name and date.
   */
  function AddWin(m: Tallies, w: DailyWinner): (m': Tallies)
    requires m.Valid()
    ensures m'.Valid()
    ensures m'.keys == if w.userId in m.entries then m.keys else m.keys + [w.userId]
  {
    match m.Get(w.userId)
    case Some(t) =>
      m.Set(w.userId, Tally(t.name, t.wins + 1,
                            if JsString.StrLess(t.lastWinDate, w.date) then w.date else t.lastWinDate))
    case None => m.Set(w.userId, Tally(w.name, 1, w.date))
  }

  /** The map the loop has built after the entries of `h`, in order. */
  function TallyWins(h: seq<DailyWinner>): (m: Tallies)
    ensures m.Valid() && |m.keys| <= |h|
  {
    if h == [] then Empty() else AddWin(TallyWins(h[..|h| - 1]), h[|h| - 1])
  }

  /**
   * The aggregation knows exactly the users who won at least once; for each it holds
   * the number of days won and the name of the user's first archived win.
   */
  lemma {:induction false} TallyOfUser(h: seq<DailyWinner>, u: int)
    ensures var m := TallyWins(h);
      && (u in m.entries <==> 0 <= JsArray.FindIndex(h, WinnerId, u))
      && (u !in m.entries ==> WinCount(h, u) == 0)
      && (u in m.entries ==>
            && m.entries[u].wins == WinCount(h, u) >= 1
            && m.entries[u].name == h[JsArray.FindIndex(h, WinnerId, u)].name)
  {
    if h != [] {
      var n := |h| - 1;
      var h', w := h[..n], h[n];
      assert h == h' + [w];
      TallyOfUser(h', u);
      JsArray.FindIndexAppend(h', w, WinnerId, u);
      var m' := TallyWins(h');
      var p := JsArray.FindIndex(h', WinnerId, u);
      if 0 <= p {
        assert h[p] == h'[p];
      }
    }
  }

  /** The date kept for a user is that user's latest winning date. */
  lemma {:induction false} TallyLatestDate(h: seq<DailyWinner>, u: int)
    requires u in TallyWins(h).entries
    ensures IsLatestDate(h, u, TallyWins(h).entries[u].lastWinDate)
  {
    var n := |h| - 1;
    var h', w := h[..n], h[n];
    assert h == h' + [w];
    var m' := TallyWins(h');
    if u in m'.entries {
      TallyLatestDate(h', u);
      if w.userId == u {
        LatestDateOfWinner(h', w, m'.entries[u].lastWinDate);
      } else {
        assert TallyWins(h).Get(u) == m'.Get(u);
        LatestDateOfOther(h', w, u, m'.entries[u].lastWinDate);
      }
    } else {
      TallyOfUser(h', u);
      TallyOfUser(h, u);
      JsArray.FindIndexAppend(h', w, WinnerId, u);
      LatestDateOfNewcomer(h', w);
    }
  }

  /**
   * Strings are totally ordered by `<`, so the latest date is the greatest: every
   * other winning date of the user is smaller.
   */
  lemma LatestDateIsGreatest(h: seq<DailyWinner>, u: int, d: string)
    requires IsLatestDate(h, u, d)
    ensures forall i :: 0 <= i < |h| && h[i].userId == u ==> h[i].date == d || JsString.StrLess(h[i].date, d)
  {
    forall i | 0 <= i < |h| && h[i].userId == u
      ensures h[i].date == d || JsString.StrLess(h[i].date, d)
    {
      if h[i].date != d {
        JsString.StrLessTotal(h[i].date, d);
      }
    }
  }

  /** A new entry of `w`'s user replaces the latest date exactly when its date is greater. */
  lemma LatestDateOfWinner(h: seq<DailyWinner>, w: DailyWinner, d: string)
    requires IsLatestDate(h, w.userId, d)
    ensures IsLatestDate(h + [w], w.userId, if JsString.StrLess(d, w.date) then w.date else d)
  {
    var h2 := h + [w];
    var u := w.userId;
    var i' :| 0 <= i' < |h| && h[i'].userId == u && h[i'].date == d;
    assert h2[i'] == h[i'];
    assert h2[|h|] == w;
    if JsString.StrLess(d, w.date) {
      forall i | 0 <= i < |h2| && h2[i].userId == u
        ensures !JsString.StrLess(w.date, h2[i].date)
      {
        if i == |h| {
          JsString.StrLessIrreflexive(w.date);
        } else {
          assert h2[i] == h[i];
          if JsString.StrLess(w.date, h2[i].date) {
            JsString.StrLessTransitive(d, w.date, h2[i].date);
          }
        }
      }
    } else {
      forall i | 0 <= i < |h2| && h2[i].userId == u
        ensures !JsString.StrLess(d, h2[i].date)
      {
        if i < |h| {
          assert h2[i] == h[i];
        }
      }
    }
  }

  /** An entry of someone else leaves a user's latest date as it was. */
  lemma LatestDateOfOther(h: seq<DailyWinner>, w: DailyWinner, u: int, d: string)
    requires w.userId != u && IsLatestDate(h, u, d)
    ensures IsLatestDate(h + [w], u, d)
  {
    var h2 := h + [w];
    var i' :| 0 <= i' < |h| && h[i'].userId == u && h[i'].date == d;
    assert h2[i'] == h[i'];
    assert forall i :: 0 <= i < |h| ==> h2[i] == h[i];
  }

  /** The first entry of a user sets that user's latest date. */
  lemma LatestDateOfNewcomer(h: seq<DailyWinner>, w: DailyWinner)
    requires forall i :: 0 <= i < |h| ==> h[i].userId != w.userId
    ensures IsLatestDate(h + [w], w.userId, w.date)
  {
    var h2 := h + [w];
    assert h2[|h|] == w;
    JsString.StrLessIrreflexive(w.date);
    assert forall i :: 0 <= i < |h| ==> h2[i] == h[i];
  }

  /** A later entry does not move the first win of a user already aggregated. */
  lemma FirstWinKept(h: seq<DailyWinner>, w: DailyWinner, k: int)
    requires k in TallyWins(h).entries
    ensures JsArray.FindIndex(h + [w], WinnerId, k) == JsArray.FindIndex(h, WinnerId, k) >= 0
  {
    TallyOfUser(h, k);
    JsArray.FindIndexAppend(h, w, WinnerId, k);
  }

  /** Users listed in the order of their first win in `h`. */
  ghost predicate KeysByFirstWin(h: seq<DailyWinner>, keys: seq<int>) {
    forall i, j :: 0 <= i < j < |keys| ==> FirstWinBefore(h, keys[i], keys[j])
  }

  /** Users `a` and `b` have both won, `a` first. */
  ghost predicate FirstWinBefore(h: seq<DailyWinner>, a: int, b: int) {
    0 <= JsArray.FindIndex(h, WinnerId, a) < JsArray.FindIndex(h, WinnerId, b)
  }

  lemma KeysByFirstWinStep(h: seq<DailyWinner>, w: DailyWinner)
    requires KeysByFirstWin(h, TallyWins(h).keys)
    ensures KeysByFirstWin(h + [w], AddWin(TallyWins(h), w).keys)
  {
    if w.userId in TallyWins(h).entries {
      KnownWinnerKeepsOrder(h, w);
    } else {
      NewWinnerKeepsOrder(h, w);
    }
  }

  lemma KnownWinnerKeepsOrder(h: seq<DailyWinner>, w: DailyWinner)
    requires KeysByFirstWin(h, TallyWins(h).keys)
    requires w.userId in TallyWins(h).entries
    ensures KeysByFirstWin(h + [w], TallyWins(h).keys)
  {
    var keys := TallyWins(h).keys;
    var h2 := h + [w];
    forall i, j | 0 <= i < j < |keys|
      ensures FirstWinBefore(h2, keys[i], keys[j])
    {
      PairKept(h, w, h2, i, j);
    }
  }

  lemma NewWinnerKeepsOrder(h: seq<DailyWinner>, w: DailyWinner)
    requires KeysByFirstWin(h, TallyWins(h).keys)
    requires w.userId !in TallyWins(h).entries
    ensures KeysByFirstWin(h + [w], TallyWins(h).keys + [w.userId])
  {
    var before := TallyWins(h).keys;
    var keys := before + [w.userId];
    var h2 := h + [w];
    forall i, j | 0 <= i < j < |keys|
      ensures FirstWinBefore(h2, keys[i], keys[j])
    {
      assert keys[i] == before[i];
      if j < |before| {
        assert keys[j] == before[j];
        PairKept(h, w, h2, i, j);
      } else {
        assert keys[j] == w.userId;
        NewcomerLast(h, w, h2, i);
      }
    }
  }

  lemma PairKept(h: seq<DailyWinner>, w: DailyWinner, h2: seq<DailyWinner>, i: int, j: int)
    requires h2 == h + [w]
    requires KeysByFirstWin(h, TallyWins(h).keys)
    requires 0 <= i < j < |TallyWins(h).keys|
    ensures FirstWinBefore(h2, TallyWins(h).keys[i], TallyWins(h).keys[j])
  {
    var keys := TallyWins(h).keys;
    assert FirstWinBefore(h, keys[i], keys[j]);
    FirstWinKept(h, w, keys[i]);
    FirstWinKept(h, w, keys[j]);
  }

  lemma NewcomerLast(h: seq<DailyWinner>, w: DailyWinner, h2: seq<DailyWinner>, i: int)
    requires h2 == h + [w]
    requires 0 <= i < |TallyWins(h).keys| && w.userId !in TallyWins(h).entries
    ensures FirstWinBefore(h2, TallyWins(h).keys[i], w.userId)
  {
    FirstWinKept(h, w, TallyWins(h).keys[i]);
    TallyOfUser(h, w.userId);
    JsArray.FindIndexAppend(h, w, WinnerId, w.userId);
  }

  /** The aggregation lists users in the order of their first win. */
  lemma {:induction false} TallyKeysByFirstWin(h: seq<DailyWinner>)
    ensures KeysByFirstWin(h, TallyWins(h).keys)
  {
    if h != [] {
      var n := |h| - 1;
      assert h == h[..n] + [h[n]];
      TallyKeysByFirstWin(h[..n]);
      KeysByFirstWinStep(h[..n], h[n]);
    }
  }
  // ---------------------------------------------------------------------------
  // Daily wins leaderboard

  function Row(u: int, t: Tally): WinsEntry { WinsEntry(u, t.name, t.wins, t.lastWinDate) }

  /** `Array.from(winsMap.entries()).map(([userId, data]) => ({ userId, ...data }))` */
  function Rows(m: Tallies): (r: seq<WinsEntry>)
    requires m.Valid()
    ensures |r| == |m.keys|
    ensures forall i :: 0 <= i < |r| ==> r[i] == Row(m.keys[i], m.entries[m.keys[i]])
  {
    seq(|m.keys|, i requires 0 <= i < |m.keys| && m.keys[i] in m.entries => Row(m.keys[i], m.entries[m.keys[i]]))
  }

  /** Row `e` aggregates every archived win of user `e.userId`. */
  ghost predicate AggregateOf(h: seq<DailyWinner>, e: WinsEntry) {
    var first := JsArray.FindIndex(h, WinnerId, e.userId);
    && 0 <= first
    && e.wins == WinCount(h, e.userId)
    && e.name == h[first].name
    && IsLatestDate(h, e.userId, e.lastWinDate)
  }

  /** Every row of `r` aggregates its user's archived wins. */
  ghost predicate AllAggregates(h: seq<DailyWinner>, r: seq<WinsEntry>) {
    forall i :: 0 <= i < |r| ==> AggregateOf(h, r[i])
  }

  /** More days won come first; equal counts are in the order of first archived win. */
  ghost predicate ByWinsThenFirstWin(h: seq<DailyWinner>, r: seq<WinsEntry>) {
    forall i, j :: 0 <= i < j < |r| ==>
      || r[i].wins > r[j].wins
      || (&& r[i].wins == r[j].wins
          && JsArray.FindIndex(h, WinnerId, r[i].userId) < JsArray.FindIndex(h, WinnerId, r[j].userId))
  }

  /**
   * User `u` belongs above row `e`: more days won, or as many days won and a first
   * archived win before `e`'s user.
   */
  ghost predicate BelongsAbove(h: seq<DailyWinner>, u: int, e: WinsEntry) {
    || WinCount(h, u) > e.wins
    || (WinCount(h, u) == e.wins && FirstWinBefore(h, u, e.userId))
  }

  /** A user who belongs above row `i` is listed before row `i`. */
  ghost predicate NoneMissedAbove(h: seq<DailyWinner>, r: seq<WinsEntry>) {
    forall i, u :: 0 <= i < |r| && BelongsAbove(h, u, r[i]) ==>
      0 <= JsArray.FindIndex(r, EntryId, u) < i
  }

  /**
   * `r` lists aggregates of archived winners, each user at most once, by number of
   * days won with the most first and, among equal counts, by first archived win;
   * no winner left out won more days than one listed.
   */
  ghost predicate ListedByWins(h: seq<DailyWinner>, r: seq<WinsEntry>) {
    && AllAggregates(h, r)
    && JsSort.DistinctIds(r, EntryId)
    && ByWinsThenFirstWin(h, r)
    && NoneMissedAbove(h, r)
  }

  /** Each row of the aggregation is the aggregate of its user. */
  lemma RowIsAggregate(h: seq<DailyWinner>, i: int)
    requires 0 <= i < |TallyWins(h).keys|
    ensures AggregateOf(h, Rows(TallyWins(h))[i])
  {
    var u := TallyWins(h).keys[i];
    TallyOfUser(h, u);
    TallyLatestDate(h, u);
  }

  lemma RowsHaveDistinctIds(m: Tallies)
    requires m.Valid()
    ensures JsSort.DistinctIds(Rows(m), EntryId)
  {
  }

  /** A row found in a rearrangement of the rows is one of the rows. */
  lemma RowOrigin(h: seq<DailyWinner>, t: seq<WinsEntry>, i: int) returns (q: int)
    requires multiset(t) == multiset(Rows(TallyWins(h))) && 0 <= i < |t|
    ensures 0 <= q < |TallyWins(h).keys| && Rows(TallyWins(h))[q] == t[i]
  {
    var rows := Rows(TallyWins(h));
    assert t[i] in multiset(rows);
    q :| 0 <= q < |rows| && rows[q] == t[i];
  }

  /** The sorted rows hold aggregates of archived winners. */
  lemma SortedRowsAggregate(h: seq<DailyWinner>, t: seq<WinsEntry>)
    requires multiset(t) == multiset(Rows(TallyWins(h)))
    ensures AllAggregates(h, t)
  {
    forall i | 0 <= i < |t|
      ensures AggregateOf(h, t[i])
    {
      var q := RowOrigin(h, t, i);
      RowIsAggregate(h, q);
    }
  }

  /** Rows with equal counts keep the order of first wins through the stable sort. */
  lemma SortedRowsTies(h: seq<DailyWinner>, i: int, j: int)
    requires var t := JsSort.SortDesc(Rows(TallyWins(h)), WinsOf);
      0 <= i < j < |t| && t[i].wins == t[j].wins
    ensures var t := JsSort.SortDesc(Rows(TallyWins(h)), WinsOf);
      JsArray.FindIndex(h, WinnerId, t[i].userId) < JsArray.FindIndex(h, WinnerId, t[j].userId)
  {
    var m := TallyWins(h);
    var rows := Rows(m);
    var t := JsSort.SortDesc(rows, WinsOf);
    RowsHaveDistinctIds(m);
    JsSort.SortKeepsDistinctIds(rows, WinsOf, EntryId);
    var a := RowOrigin(h, t, i);
    var b := RowOrigin(h, t, j);
    JsSort.FindOwnIndex(t, EntryId, i);
    JsSort.FindOwnIndex(t, EntryId, j);
    if b < a {
      JsSort.StableOrder(rows, WinsOf, EntryId, b, a);
    }
    assert a != b;
    TallyKeysByFirstWin(h);
    assert m.keys[a] == t[i].userId && m.keys[b] == t[j].userId;
  }

  /** No winner missing before position `i` of the sorted rows won more days than row `i`. */
  lemma SortedRowsTopK(h: seq<DailyWinner>, t: seq<WinsEntry>, i: int, u: int)
    requires multiset(t) == multiset(Rows(TallyWins(h))) && JsSort.SortedDesc(t, WinsOf)
    requires 0 <= i < |t| && WinCount(h, u) > t[i].wins
    ensures 0 <= JsArray.FindIndex(t, EntryId, u) < i
  {
    var m := TallyWins(h);
    var rows := Rows(m);
    TallyOfUser(h, u);
    assert u in m.keys;
    var q :| 0 <= q < |m.keys| && m.keys[q] == u;
    assert rows[q] in multiset(t);
    JsSort.AboveComesFirst(t, WinsOf, rows[q], i);
    var j :| 0 <= j < i && t[j] == rows[q];
    assert EntryId(t[j]) == u;
  }

  /** A user who has won holds a key of the aggregation, whose row carries the user's wins. */
  lemma WinnerKey(h: seq<DailyWinner>, u: int) returns (q: int)
    requires 0 <= JsArray.FindIndex(h, WinnerId, u)
    ensures 0 <= q < |TallyWins(h).keys| && TallyWins(h).keys[q] == u
    ensures Rows(TallyWins(h))[q].wins == WinCount(h, u)
  {
    var m := TallyWins(h);
    TallyOfUser(h, u);
    assert u in m.keys;
    q :| 0 <= q < |m.keys| && m.keys[q] == u;
  }

  /** Keys of the aggregation are in first-win order, so an earlier first win means an earlier key. */
  lemma FirstWinOrdersKeys(h: seq<DailyWinner>, q: int, a: int)
    requires 0 <= q < |TallyWins(h).keys| && 0 <= a < |TallyWins(h).keys|
    requires FirstWinBefore(h, TallyWins(h).keys[q], TallyWins(h).keys[a])
    ensures q < a
  {
    TallyKeysByFirstWin(h);
  }

  /** A winner with as many days as row `i` and an earlier first win is listed before row `i`. */
  lemma SortedRowsTieAbove(h: seq<DailyWinner>, i: int, u: int)
    requires var t := JsSort.SortDesc(Rows(TallyWins(h)), WinsOf);
      0 <= i < |t| && WinCount(h, u) == t[i].wins && FirstWinBefore(h, u, t[i].userId)
    ensures var t := JsSort.SortDesc(Rows(TallyWins(h)), WinsOf);
      0 <= JsArray.FindIndex(t, EntryId, u) < i
  {
    var m := TallyWins(h);
    var rows := Rows(m);
    var t := JsSort.SortDesc(rows, WinsOf);
    var a := RowOrigin(h, t, i);
    var q := WinnerKey(h, u);
    assert m.keys[a] == t[i].userId;
    FirstWinOrdersKeys(h, q, a);
    RowsHaveDistinctIds(m);
    JsSort.StableOrder(rows, WinsOf, EntryId, q, a);
    JsSort.SortKeepsDistinctIds(rows, WinsOf, EntryId);
    JsSort.FindOwnIndex(t, EntryId, i);
    WinnerListed(h, u);
  }

  lemma SortedRowsOrdered(h: seq<DailyWinner>)
    ensures ByWinsThenFirstWin(h, JsSort.SortDesc(Rows(TallyWins(h)), WinsOf))
  {
    var t := JsSort.SortDesc(Rows(TallyWins(h)), WinsOf);
    forall i, j | 0 <= i < j < |t|
      ensures t[i].wins > t[j].wins || (t[i].wins == t[j].wins
        && JsArray.FindIndex(h, WinnerId, t[i].userId) < JsArray.FindIndex(h, WinnerId, t[j].userId))
    {
      assert WinsOf(t[i]) >= WinsOf(t[j]);
      if t[i].wins == t[j].wins {
        SortedRowsTies(h, i, j);
      }
    }
  }

  lemma SortedRowsNoneMissed(h: seq<DailyWinner>)
    ensures NoneMissedAbove(h, JsSort.SortDesc(Rows(TallyWins(h)), WinsOf))
  {
    var t := JsSort.SortDesc(Rows(TallyWins(h)), WinsOf);
    forall i, u | 0 <= i < |t| && BelongsAbove(h, u, t[i])
      ensures 0 <= JsArray.FindIndex(t, EntryId, u) < i
    {
      if WinCount(h, u) > t[i].wins {
        SortedRowsTopK(h, t, i, u);
      } else {
        SortedRowsTieAbove(h, i, u);
      }
    }
  }

  /** The stably sorted rows list the archived winners by days won. */
  lemma SortedRowsListed(h: seq<DailyWinner>)
    ensures ListedByWins(h, JsSort.SortDesc(Rows(TallyWins(h)), WinsOf))
  {
    var rows := Rows(TallyWins(h));
    SortedRowsAggregate(h, JsSort.SortDesc(rows, WinsOf));
    RowsHaveDistinctIds(TallyWins(h));
    JsSort.SortKeepsDistinctIds(rows, WinsOf, EntryId);
    SortedRowsOrdered(h);
    SortedRowsNoneMissed(h);
  }

  lemma PrefixListedByWins(h: seq<DailyWinner>, t: seq<WinsEntry>, n: nat)
    requires ListedByWins(h, t) && n <= |t|
    ensures ListedByWins(h, t[..n])
  {
    var r := t[..n];
    assert forall i :: 0 <= i < n ==> r[i] == t[i];
    forall i, u | 0 <= i < |r| && BelongsAbove(h, u, r[i])
      ensures 0 <= JsArray.FindIndex(r, EntryId, u) < i
    {
      JsArray.FindIndexPrefix(t, n, EntryId, u);
    }
  }

  /** One more archived day adds one to the total of the rows. */
  lemma AddWinSum(m: Tallies, w: DailyWinner)
    requires m.Valid()
    ensures JsSort.SumKey(Rows(AddWin(m, w)), WinsOf) == JsSort.SumKey(Rows(m), WinsOf) + 1
  {
    var m2 := AddWin(m, w);
    var rs, rs2 := Rows(m), Rows(m2);
    if w.userId in m.entries {
      var q :| 0 <= q < |m.keys| && m.keys[q] == w.userId;
      var x := Row(w.userId, m2.entries[w.userId]);
      assert rs2 == rs[q := x];
      JsSort.SumKeyUpdate(rs, q, x, WinsOf);
    } else {
      var x := Row(w.userId, Tally(w.name, 1, w.date));
      assert rs2 == rs + [x];
      JsSort.SumKeyAppend(rs, x, WinsOf);
    }
  }

  /** Every archived day is counted once: the wins of the aggregation add up to the history's length. */
  lemma {:induction false} TallySum(h: seq<DailyWinner>)
    ensures JsSort.SumKey(Rows(TallyWins(h)), WinsOf) == |h|
  {
    if h != [] {
      var n := |h| - 1;
      TallySum(h[..n]);
      AddWinSum(TallyWins(h[..n]), h[n]);
    }
  }

  /** A user listed among the sorted rows has won a day. */
  lemma ListedHasWon(h: seq<DailyWinner>, u: int)
    requires 0 <= JsArray.FindIndex(JsSort.SortDesc(Rows(TallyWins(h)), WinsOf), EntryId, u)
    ensures 0 <= JsArray.FindIndex(h, WinnerId, u)
  {
    var t := JsSort.SortDesc(Rows(TallyWins(h)), WinsOf);
    var q := RowOrigin(h, t, JsArray.FindIndex(t, EntryId, u));
    TallyOfUser(h, u);
  }

  /** A user who has won a day is listed among the sorted rows. */
  lemma WinnerListed(h: seq<DailyWinner>, u: int)
    requires 0 <= JsArray.FindIndex(h, WinnerId, u)
    ensures 0 <= JsArray.FindIndex(JsSort.SortDesc(Rows(TallyWins(h)), WinsOf), EntryId, u)
  {
    var m := TallyWins(h);
    var rows := Rows(m);
    var t := JsSort.SortDesc(rows, WinsOf);
    TallyOfUser(h, u);
    assert u in m.keys;
    var q :| 0 <= q < |m.keys| && m.keys[q] == u;
    assert rows[q] in multiset(t);
    var j :| 0 <= j < |t| && t[j] == rows[q];
    assert EntryId(t[j]) == u;
  }

  /** Uncut, the sorted rows list every archived winner and account for every archived day. */
  lemma FullBoard(h: seq<DailyWinner>)
    ensures var t := JsSort.SortDesc(Rows(TallyWins(h)), WinsOf);
      && (forall u :: 0 <= JsArray.FindIndex(t, EntryId, u) <==> 0 <= JsArray.FindIndex(h, WinnerId, u))
      && JsSort.SumKey(t, WinsOf) == |h|
  {
    var t := JsSort.SortDesc(Rows(TallyWins(h)), WinsOf);
    forall u
      ensures 0 <= JsArray.FindIndex(t, EntryId, u) <==> 0 <= JsArray.FindIndex(h, WinnerId, u)
    {
      if 0 <= JsArray.FindIndex(h, WinnerId, u) {
        WinnerListed(h, u);
      }
      if 0 <= JsArray.FindIndex(t, EntryId, u) {
        ListedHasWon(h, u);
      }
    }
    JsSort.SumKeySort(Rows(TallyWins(h)), WinsOf);
    TallySum(h);
  }

  /** The facts `WinsLeaderboard` promises, about its defining expression. */
  lemma BoardFacts(h: seq<DailyWinner>, limit: int)
    ensures var r := JsArray.SliceTo(JsSort.SortDesc(Rows(TallyWins(h)), WinsOf), limit);
      && ListedByWins(h, r)
      && (|TallyWins(h).keys| <= limit ==>
            && (forall u :: 0 <= JsArray.FindIndex(r, EntryId, u) <==> 0 <= JsArray.FindIndex(h, WinnerId, u))
            && JsSort.SumKey(r, WinsOf) == |h|)
  {
    var t := JsSort.SortDesc(Rows(TallyWins(h)), WinsOf);
    var r := JsArray.SliceTo(t, limit);
    SortedRowsListed(h);
    PrefixListedByWins(h, t, |r|);
    assert r == t[..|r|];
    if |TallyWins(h).keys| <= limit {
      assert r == t;
      FullBoard(h);
    }
  }

  /** Among users with as many wins as the first row, the first row's user won first. */
  lemma HeadWonFirst(h: seq<DailyWinner>, r: seq<WinsEntry>, u: int)
    requires NoneMissedAbove(h, r) && |r| > 0
    requires WinCount(h, u) == r[0].wins && 0 <= JsArray.FindIndex(h, WinnerId, u)
    ensures JsArray.FindIndex(h, WinnerId, r[0].userId) <= JsArray.FindIndex(h, WinnerId, u)
  {
    var listedAt := JsArray.FindIndex(r, EntryId, u);  // where the top-k clause would place `u`
  }

  /** The aggregation of two different users' single wins. */
  lemma TwoWinners(a: DailyWinner, b: DailyWinner)
    requires a.userId == 1 && b.userId == 2
    ensures var h := [a, b];
      && |TallyWins(h).keys| == 2
      && WinCount(h, 1) == 1 && WinCount(h, 2) == 1
      && JsArray.FindIndex(h, WinnerId, 1) == 0 && JsArray.FindIndex(h, WinnerId, 2) == 1
      && forall u :: 0 <= JsArray.FindIndex(h, WinnerId, u) ==> u == 1 || u == 2
  {
    var h := [a, b];
    assert h[..1] == [a] && h[..1][..0] == [];
    assert TallyWins(h).keys == [1, 2];
    assert WinCount([a], 1) == 1 && WinCount([a], 2) == 0;
  }

  /** Of two users with one win each, a board cut to one row keeps the one who won first. */
  lemma TieAtCutKeepsFirstWinner()
    ensures var a := DailyWinner(1, "Ann", 3, 3, "2024-01-01", 1);
      var b := DailyWinner(2, "Bob", 4, 4, "2024-01-02", 1);
      WinsLeaderboard([a, b], 1) == [WinsEntry(1, "Ann", 1, "2024-01-01")]
  {
    var a := DailyWinner(1, "Ann", 3, 3, "2024-01-01", 1);
    var b := DailyWinner(2, "Bob", 4, 4, "2024-01-02", 1);
    var h := [a, b];
    TwoWinners(a, b);
    var r := WinsLeaderboard(h, 1);
    assert |r| == 1 && AggregateOf(h, r[0]);
    HeadWonFirst(h, r, 1);
    assert r[0].userId == 1;
    assert h[0] == a;
  }

  /**
   * The in-memory branch of `getDailyWinsLeaderboard(limit)`: the archive grouped by
   * user, sorted by days won (stable, so equal counts keep the order of first wins),
   * cut with `slice(0, limit)`. With a limit covering every winner, each winner is
   * listed and the days won add up to the number of archived days.
   */
  function WinsLeaderboard(h: seq<DailyWinner>, limit: int): (r: seq<WinsEntry>)
    ensures 0 <= limit ==> |r| == JsArray.Min(limit, |TallyWins(h).keys|)
    ensures limit < 0 ==> |r| == JsArray.Max(|TallyWins(h).keys| + limit, 0)
    ensures ListedByWins(h, r)
    ensures |TallyWins(h).keys| <= limit ==>
      && (forall u :: 0 <= JsArray.FindIndex(r, EntryId, u) <==> 0 <= JsArray.FindIndex(h, WinnerId, u))
      && JsSort.SumKey(r, WinsOf) == |h|
  {
    BoardFacts(h, limit);
    JsArray.SliceTo(JsSort.SortDesc(Rows(TallyWins(h)), WinsOf), limit)
  }
}
