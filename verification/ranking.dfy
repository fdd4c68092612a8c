/**
 * The best-lap ranking of ThePerfectLap_SeniorProject.py: group the laps by
 * driver, take each driver's least lap time skipping nulls, drop the drivers
 * left without a time, and sort what remains by time; then split it into the
 * aligned list of driver codes and list of times that the bar chart draws.
 */
module Ranking {
  import opened LapData

  /** One row of the ranking: a driver and that driver's best lap time. */
  datatype Best = Best(driver: string, time: int)

  /** Some lap of driver `d` has a lap time. */
  predicate HasLapTime(laps: seq<Lap>, d: string)
  {
    exists l :: l in laps && l.driver == d && l.lapTime.Some?
  }

  /** Driver `d` has a row in the ranking `r`. */
  predicate Listed(r: seq<Best>, d: string)
  {
    exists e :: e in r && e.driver == d
  }

  /** `laps.groupby("Driver")["LapTime"].min()` for one group. */
  function DriverBest(laps: seq<Lap>, d: string): Option<int>
  {
    ColumnMin(LapTimeColumn(SelectDriver(laps, d)))
  }

  /**
   * A driver's best is absent exactly when none of that driver's laps has a
   * time; otherwise it is the time of one of that driver's laps and no
   * greater than any of them.
   */
  lemma DriverBestIsLeast(laps: seq<Lap>, d: string)
    ensures DriverBest(laps, d).None? <==> !HasLapTime(laps, d)
    ensures DriverBest(laps, d).Some? ==>
      exists l :: l in laps && l.driver == d && l.lapTime == DriverBest(laps, d)
    ensures DriverBest(laps, d).Some? ==>
      forall l {:trigger l in laps} :: l in laps && l.driver == d && l.lapTime.Some? ==> DriverBest(laps, d).value <= l.lapTime.value
  {
    var mine := SelectDriver(laps, d);
    var col := LapTimeColumn(mine);
    assert forall l :: l in mine ==> l.lapTime in col;
  }

  /** The group keys: every driver code of the laps, once each. */
  function DriverCodes(laps: seq<Lap>): (ds: seq<string>)
    ensures forall i, j :: 0 <= i < j < |ds| ==> ds[i] != ds[j]
    ensures forall d :: d in ds <==> exists l :: l in laps && l.driver == d
  {
    if laps == [] then []
    else
      var rest := DriverCodes(laps[..|laps| - 1]);
      var last := laps[|laps| - 1];
      assert forall l :: l in laps <==> l in laps[..|laps| - 1] || l == last;
      if last.driver in rest then rest else rest + [last.driver]
  }

  predicate DistinctDrivers(r: seq<Best>)
  {
    forall i, j :: 0 <= i < j < |r| ==> r[i].driver != r[j].driver
  }

  predicate SortedByTime(r: seq<Best>)
  {
    forall i, j :: 0 <= i < j < |r| ==> r[i].time <= r[j].time
  }

  /** One entry of the grouped minimum: a driver and its best time, if any. */
  datatype Group = Group(driver: string, best: Option<int>)

  /** Driver `d` has an entry in the grouped minimum `g`. */
  predicate Keyed(g: seq<Group>, d: string)
  {
    exists i :: 0 <= i < |g| && g[i].driver == d
  }

  /**
   * `laps.groupby("Driver")["LapTime"].min()`: one entry per driver code that
   * occurs in the laps, each carrying that driver's minimum.
   */
  function GroupMins(laps: seq<Lap>): (g: seq<Group>)
    ensures forall i, j :: 0 <= i < j < |g| ==> g[i].driver != g[j].driver
    ensures forall i :: 0 <= i < |g| ==> g[i].best == DriverBest(laps, g[i].driver)
    ensures forall d :: Keyed(g, d) <==> exists l :: l in laps && l.driver == d
  {
    var ds := DriverCodes(laps);
    var g := seq(|ds|, i requires 0 <= i < |ds| => Group(ds[i], DriverBest(laps, ds[i])));
    forall d | d in ds ensures Keyed(g, d) {
      var i :| 0 <= i < |ds| && ds[i] == d;
      assert g[i].driver == d;
    }
    forall i | 0 <= i < |g| ensures g[i].driver in ds {
      assert g[i].driver == ds[i];
    }
    g
  }

  /** `.dropna()`: the entries that have a best time, as ranking rows. */
  function DropNull(g: seq<Group>): (r: seq<Best>)
    ensures forall e :: e in r <==> Group(e.driver, Some(e.time)) in g
  {
    if g == [] then []
    else
      var rest := DropNull(g[1..]);
      assert forall x :: x in g <==> x == g[0] || x in g[1..];
      match g[0].best
      case None => rest
      case Some(t) => [Best(g[0].driver, t)] + rest
  }

  /** Entries with distinct drivers give rows with distinct drivers. */
  lemma {:induction false} DropNullDistinct(g: seq<Group>)
    requires forall i, j :: 0 <= i < j < |g| ==> g[i].driver != g[j].driver
    ensures DistinctDrivers(DropNull(g))
  {
    if g != [] {
      DropNullDistinct(g[1..]);
      var rest := DropNull(g[1..]);
      if g[0].best.Some? {
        var r := DropNull(g);
        assert r == [Best(g[0].driver, g[0].best.value)] + rest;
        forall x | x in rest ensures x.driver != g[0].driver {
          var k :| 0 <= k < |g[1..]| && g[1..][k] == Group(x.driver, Some(x.time));
          assert g[k + 1].driver == x.driver;
        }
        ConsDistinct(Best(g[0].driver, g[0].best.value), rest);
      }
    }
  }

  /** A row put in front of rows for other drivers keeps the drivers distinct. */
  lemma ConsDistinct(x: Best, s: seq<Best>)
    requires DistinctDrivers(s)
    requires forall y :: y in s ==> y.driver != x.driver
    ensures DistinctDrivers([x] + s)
  {
    var r := [x] + s;
    forall i, j | 0 <= i < j < |r| ensures r[i].driver != r[j].driver {
      assert r[j] == s[j - 1] && r[j] in s;
      if i > 0 {
        assert r[i] == s[i - 1];
      }
    }
  }

  /** Puts `e` in front of the first row that is slower than it. */
  function Insert(e: Best, s: seq<Best>): (r: seq<Best>)
    ensures multiset(r) == multiset(s) + multiset{e}
  {
    if s == [] then [e]
    else if e.time <= s[0].time then [e] + s
    else
      assert s == [s[0]] + s[1..];
      [s[0]] + Insert(e, s[1..])
  }

  /** Inserting into a sorted ranking keeps it sorted. */
  lemma {:induction false} InsertSorted(e: Best, s: seq<Best>)
    requires SortedByTime(s)
    ensures SortedByTime(Insert(e, s))
  {
    if s != [] && e.time > s[0].time {
      assert s == [s[0]] + s[1..];
      InsertSorted(e, s[1..]);
      var rest := Insert(e, s[1..]);
      forall x | x in rest ensures s[0].time <= x.time {
        assert x in multiset(rest);
      }
      ConsSorted(s[0], rest);
    } else if s != [] {
      ConsSorted(e, s);
    }
  }

  /** A row no slower than every row of a sorted ranking can go in front of it. */
  lemma ConsSorted(x: Best, s: seq<Best>)
    requires SortedByTime(s)
    requires forall y :: y in s ==> x.time <= y.time
    ensures SortedByTime([x] + s)
  {
    var r := [x] + s;
    forall i, j | 0 <= i < j < |r| ensures r[i].time <= r[j].time {
      assert r[j] == s[j - 1] && r[j] in s;
      if i > 0 {
        assert r[i] == s[i - 1];
      }
    }
  }

  /** Inserting a row for a new driver keeps the drivers distinct. */
  lemma {:induction false} InsertDistinct(e: Best, s: seq<Best>)
    requires DistinctDrivers(s)
    requires forall x :: x in s ==> x.driver != e.driver
    ensures DistinctDrivers(Insert(e, s))
  {
    if s != [] && e.time > s[0].time {
      assert s == [s[0]] + s[1..];
      InsertDistinct(e, s[1..]);
      var rest := Insert(e, s[1..]);
      forall x | x in rest ensures x.driver != s[0].driver {
        assert x in multiset(rest);
      }
      ConsDistinct(s[0], rest);
    } else if s != [] {
      ConsDistinct(e, s);
    }
  }

  /** `.sort_values()`: the same rows, by non-decreasing time. */
  function SortByTime(s: seq<Best>): (r: seq<Best>)
    ensures multiset(r) == multiset(s)
  {
    if s == [] then []
    else
      assert s == [s[0]] + s[1..];
      Insert(s[0], SortByTime(s[1..]))
  }

  /** Sorting leaves the rows in non-decreasing order of time. */
  lemma {:induction false} SortSorted(s: seq<Best>)
    ensures SortedByTime(SortByTime(s))
  {
    if s != [] {
      SortSorted(s[1..]);
      InsertSorted(s[0], SortByTime(s[1..]));
    }
  }

  /** Sorting rows with distinct drivers keeps them distinct. */
  lemma {:induction false} SortDistinct(s: seq<Best>)
    requires DistinctDrivers(s)
    ensures DistinctDrivers(SortByTime(s))
  {
    if s != [] {
      assert s == [s[0]] + s[1..];
      SortDistinct(s[1..]);
      var sorted := SortByTime(s[1..]);
      forall x | x in sorted ensures x.driver != s[0].driver {
        assert x in multiset(s[1..]);
      }
      InsertDistinct(s[0], sorted);
    }
  }

  /** A row before sorting carries a driver with a lap time and that driver's best. */
  lemma GroupedRowSound(laps: seq<Lap>, e: Best)
    requires e in DropNull(GroupMins(laps))
    ensures HasLapTime(laps, e.driver) && DriverBest(laps, e.driver) == Some(e.time)
  {
    var g := GroupMins(laps);
    var i :| 0 <= i < |g| && g[i] == Group(e.driver, Some(e.time));
    DriverBestIsLeast(laps, e.driver);
  }

  /** Every driver with a lap time has a row with its best before sorting. */
  lemma GroupedRowComplete(laps: seq<Lap>, d: string)
    requires HasLapTime(laps, d)
    ensures DriverBest(laps, d).Some?
    ensures Best(d, DriverBest(laps, d).value) in DropNull(GroupMins(laps))
  {
    DriverBestIsLeast(laps, d);
    var g := GroupMins(laps);
    var l :| l in laps && l.driver == d && l.lapTime.Some?;
    assert Keyed(g, d);
    var i :| 0 <= i < |g| && g[i].driver == d;
    assert g[i] == Group(d, DriverBest(laps, d)) && g[i] in g;
  }

  /** The rows before sorting are exactly the drivers with a best time, with that time. */
  lemma GroupedRows(laps: seq<Lap>)
    ensures forall e :: e in DropNull(GroupMins(laps)) <==>
      HasLapTime(laps, e.driver) && DriverBest(laps, e.driver) == Some(e.time)
  {
    forall e | e in DropNull(GroupMins(laps))
      ensures HasLapTime(laps, e.driver) && DriverBest(laps, e.driver) == Some(e.time)
    {
      GroupedRowSound(laps, e);
    }
    forall e: Best | HasLapTime(laps, e.driver) && DriverBest(laps, e.driver) == Some(e.time)
      ensures e in DropNull(GroupMins(laps))
    {
      GroupedRowComplete(laps, e.driver);
    }
  }

  /** Sorting keeps exactly the rows it was given. */
  lemma SortKeepsRows(s: seq<Best>)
    ensures forall e :: e in SortByTime(s) <==> e in s
  {
    forall e ensures e in SortByTime(s) <==> e in s {
      assert e in SortByTime(s) <==> e in multiset(SortByTime(s));
    }
  }

  /** `best_lap`: one row per driver with a lap time, by non-decreasing time. */
  function BestLapRanking(laps: seq<Lap>): (r: seq<Best>)
    ensures DistinctDrivers(r)
    ensures SortedByTime(r)
    ensures forall e :: e in r <==> HasLapTime(laps, e.driver) && DriverBest(laps, e.driver) == Some(e.time)
  {
    var g := GroupMins(laps);
    var timed := DropNull(g);
    DropNullDistinct(g);
    SortSorted(timed);
    SortDistinct(timed);
    SortKeepsRows(timed);
    GroupedRows(laps);
    SortByTime(timed)
  }

  /**
   * Each ranked time is the time of one of that driver's laps and no greater
   * than any of that driver's lap times.
   */
  lemma RankingTimesAreBest(laps: seq<Lap>)
    ensures forall e :: e in BestLapRanking(laps) ==>
      exists l :: l in laps && l.driver == e.driver && l.lapTime == Some(e.time)
    ensures forall e, l :: e in BestLapRanking(laps) && l in laps && l.driver == e.driver && l.lapTime.Some? ==>
      e.time <= l.lapTime.value
  {
    forall e | e in BestLapRanking(laps)
      ensures exists l :: l in laps && l.driver == e.driver && l.lapTime == Some(e.time)
      ensures forall l :: l in laps && l.driver == e.driver && l.lapTime.Some? ==> e.time <= l.lapTime.value
    {
      DriverBestIsLeast(laps, e.driver);
    }
  }

  /**
   * A driver is listed exactly when at least one of that driver's laps has a
   * time: all-null drivers are dropped and codes absent from the laps never
   * appear.
   */
  lemma RankingListsExactlyTimedDrivers(laps: seq<Lap>)
    ensures forall d :: Listed(BestLapRanking(laps), d) <==> HasLapTime(laps, d)
  {
    var r := BestLapRanking(laps);
    forall d | HasLapTime(laps, d) ensures Listed(r, d) {
      DriverBestIsLeast(laps, d);
      assert Best(d, DriverBest(laps, d).value) in r;
    }
  }

  /** `list(best_lap.index)`: the driver column of the ranking. */
  function RankedDrivers(r: seq<Best>): (ds: seq<string>)
    ensures |ds| == |r|
    ensures forall d :: d in ds <==> Listed(r, d)
    ensures DistinctDrivers(r) ==> forall i, j :: 0 <= i < j < |ds| ==> ds[i] != ds[j]
  {
    var ds := seq(|r|, i requires 0 <= i < |r| => r[i].driver);
    forall d ensures d in ds <==> Listed(r, d) {
      if Listed(r, d) {
        var e :| e in r && e.driver == d;
        var i :| 0 <= i < |r| && r[i] == e;
        assert ds[i] == d;
      }
      if d in ds {
        var i :| 0 <= i < |ds| && ds[i] == d;
        assert r[i] in r;
      }
    }
    ds
  }

  /** `best_lap.dt.total_seconds()`, without the conversion: the time column. */
  function RankedTimes(r: seq<Best>): (ts: seq<int>)
    ensures |ts| == |r|
    ensures forall x :: x in ts <==> exists e :: e in r && e.time == x
    ensures SortedByTime(r) ==> forall i, j :: 0 <= i < j < |ts| ==> ts[i] <= ts[j]
  {
    var ts := seq(|r|, i requires 0 <= i < |r| => r[i].time);
    forall x ensures x in ts <==> exists e :: e in r && e.time == x {
      if exists e :: e in r && e.time == x {
        var e :| e in r && e.time == x;
        var i :| 0 <= i < |r| && r[i] == e;
        assert ts[i] == x;
      }
      if x in ts {
        var i :| 0 <= i < |ts| && ts[i] == x;
        assert r[i] in r;
      }
    }
    ts
  }

  /**
   * The two lists the chart draws have one entry per ranked driver, line up
   * position by position (each time is its driver's best), name every driver
   * at most once, and list the times in non-decreasing order.
   */
  lemma RankingListsAligned(laps: seq<Lap>)
    ensures var r := BestLapRanking(laps);
      |RankedDrivers(r)| == |RankedTimes(r)| == |r|
    ensures var r := BestLapRanking(laps);
      forall i :: 0 <= i < |r| ==> DriverBest(laps, RankedDrivers(r)[i]) == Some(RankedTimes(r)[i])
    ensures var ds := RankedDrivers(BestLapRanking(laps));
      forall i, j :: 0 <= i < j < |ds| ==> ds[i] != ds[j]
    ensures var ts := RankedTimes(BestLapRanking(laps));
      forall i, j :: 0 <= i < j < |ts| ==> ts[i] <= ts[j]
  {
    var r := BestLapRanking(laps);
    forall i | 0 <= i < |r| ensures DriverBest(laps, r[i].driver) == Some(r[i].time) {
      assert r[i] in r;
    }
  }
}
