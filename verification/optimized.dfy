/**
 * The "optimized" lap of f1_gui.py: for each sector column that exists, its
 * least non-null time; the optimum is the sum of the minima that exist, and
 * absent when none does. An absent or all-null column is skipped, never read
 * as a zero-length sector.
 */
module Optimized {
  import opened LapData

  /** The best time of one sector column of the selection, if it has one. */
  function SectorBest(t: LapTable, s: Sector): (b: Option<int>)
    ensures b.None? <==> !(s in t.columns && exists l :: l in t.laps && SectorTime(l, s).Some?)
    ensures b.Some? ==> exists l :: l in t.laps && SectorTime(l, s) == b
    ensures b.Some? ==> forall l {:trigger l in t.laps} :: l in t.laps && SectorTime(l, s).Some? ==> b.value <= SectorTime(l, s).value
  {
    match SectorColumn(t, s)
    case None => None
    case Some(col) =>
      var m := ColumnMin(col);
      assert forall l :: l in t.laps ==> SectorTime(l, s) in col;
      assert m.None? ==> forall l :: l in t.laps ==> SectorTime(l, s).None?;
      m
  }

  /** True when sector `s` adds a term to the optimum. */
  predicate Contributes(t: LapTable, s: Sector)
  {
    SectorBest(t, s).Some?
  }

  /** What sector `s` adds to the optimum's sum; additive identity when it adds nothing. */
  function Term(t: LapTable, s: Sector): int
  {
    match SectorBest(t, s)
    case Some(m) => m
    case None => 0
  }

  /**
   * Closed form of the optimum: absent when no sector contributes, otherwise
   * the sum of the terms of the sectors that do.
   */
  function OptimizedLap(t: LapTable): Option<int>
  {
    if !Contributes(t, Sector1) && !Contributes(t, Sector2) && !Contributes(t, Sector3) then None
    else Some(Term(t, Sector1) + Term(t, Sector2) + Term(t, Sector3))
  }

  function Sum(xs: seq<int>): int
  {
    if xs == [] then 0 else Sum(xs[..|xs| - 1]) + xs[|xs| - 1]
  }

  /** The terms of the first `k` sector columns, in visiting order. */
  function TermsUpTo(t: LapTable, k: nat): int
    requires k <= |SectorColumns|
  {
    if k == 0 then 0 else TermsUpTo(t, k - 1) + Term(t, SectorColumns[k - 1])
  }

  /** Whether one of the first `k` sector columns contributes, in visiting order. */
  predicate AnyUpTo(t: LapTable, k: nat)
    requires k <= |SectorColumns|
  {
    k > 0 && (AnyUpTo(t, k - 1) || Contributes(t, SectorColumns[k - 1]))
  }

  /** Visiting all three sector columns adds up every term of the closed form. */
  lemma AllTerms(t: LapTable)
    ensures TermsUpTo(t, |SectorColumns|) == Term(t, Sector1) + Term(t, Sector2) + Term(t, Sector3)
    ensures AnyUpTo(t, |SectorColumns|) <==> Contributes(t, Sector1) || Contributes(t, Sector2) || Contributes(t, Sector3)
  {
    assert TermsUpTo(t, 1) == Term(t, Sector1);
    assert TermsUpTo(t, 2) == Term(t, Sector1) + Term(t, Sector2);
    assert AnyUpTo(t, 1) == Contributes(t, Sector1);
    assert AnyUpTo(t, 2) == (Contributes(t, Sector1) || Contributes(t, Sector2));
  }

  /**
   * `compute_optimized_secs`: visit the three sector columns in order, keep
   * the minimum of each one that is present and holds a time, and return the
   * sum of the kept minima, or nothing when none was kept.
   */
  method ComputeOptimizedSecs(t: LapTable) returns (opt: Option<int>)
    ensures opt == OptimizedLap(t)
  {
    var mins: seq<int> := [];
    for k := 0 to |SectorColumns|
      invariant mins != [] <==> AnyUpTo(t, k)
      invariant Sum(mins) == TermsUpTo(t, k)
    {
      var col := SectorColumn(t, SectorColumns[k]);
      if col.Some? {
        var m := ColumnMin(col.value);
        assert m == SectorBest(t, SectorColumns[k]);
        if m.Some? {
          assert (mins + [m.value])[..|mins|] == mins;
          mins := mins + [m.value];
        }
      }
    }
    AllTerms(t);
    if mins != [] {
      opt := Some(Sum(mins));
    } else {
      opt := None;
    }
  }

  /** The optimum is absent exactly when no sector column is present with a non-null time. */
  lemma OptimizedAbsentIff(t: LapTable)
    ensures OptimizedLap(t).None? <==>
      forall s :: !(s in t.columns && exists l :: l in t.laps && SectorTime(l, s).Some?)
  {
    if OptimizedLap(t).None? {
      forall s ensures !(s in t.columns && exists l :: l in t.laps && SectorTime(l, s).Some?) {
        assert !Contributes(t, s);
      }
    }
  }

  /**
   * A sector column with no time (absent or all null) changes nothing: the
   * optimum is the same with the column dropped from the table, and a table
   * with no sector column at all has no optimum rather than a zero one.
   */
  lemma EmptyColumnAddsNothing(t: LapTable, s: Sector)
    requires !(s in t.columns && exists l :: l in t.laps && SectorTime(l, s).Some?)
    ensures OptimizedLap(t.(columns := t.columns - {s})) == OptimizedLap(t)
    ensures OptimizedLap(t.(columns := {})) == None
  {
    var u := t.(columns := t.columns - {s});
    forall s' ensures SectorBest(u, s') == SectorBest(t, s') {
      if s' != s {
        assert SectorColumn(u, s') == SectorColumn(t, s');
      }
    }
    var e := t.(columns := {});
    assert !Contributes(e, Sector1) && !Contributes(e, Sector2) && !Contributes(e, Sector3);
  }

  /**
   * For every lap whose three sector times are all recorded, the optimum
   * exists and is no slower than that lap's own sector sum.
   */
  lemma OptimizedAtMostLapSectorSum(t: LapTable, lap: Lap)
    requires t.columns == {Sector1, Sector2, Sector3}
    requires lap in t.laps
    requires lap.sector1.Some? && lap.sector2.Some? && lap.sector3.Some?
    ensures OptimizedLap(t).Some?
    ensures OptimizedLap(t).value <= lap.sector1.value + lap.sector2.value + lap.sector3.value
  {
    assert SectorTime(lap, Sector1).Some?;
    assert SectorTime(lap, Sector2).Some?;
    assert SectorTime(lap, Sector3).Some?;
  }

  /** The optimum does not depend on the order of the laps in the table. */
  lemma OptimizedOrderIndependent(t: LapTable, u: LapTable)
    requires multiset(t.laps) == multiset(u.laps)
    requires t.columns == u.columns
    ensures OptimizedLap(t) == OptimizedLap(u)
  {
    SameMembers(t.laps, u.laps);
    SectorBestDeterminedByLaps(t, u, Sector1);
    SectorBestDeterminedByLaps(t, u, Sector2);
    SectorBestDeterminedByLaps(t, u, Sector3);
  }

  lemma SameMembers(a: seq<Lap>, b: seq<Lap>)
    requires multiset(a) == multiset(b)
    ensures forall l :: l in a <==> l in b
  {
    forall l ensures l in a <==> l in b {
      assert l in a <==> l in multiset(a);
      assert l in b <==> l in multiset(b);
    }
  }

  /** Two tables holding the same laps and columns have the same sector bests. */
  lemma SectorBestDeterminedByLaps(t: LapTable, u: LapTable, s: Sector)
    requires forall l :: l in t.laps <==> l in u.laps
    requires t.columns == u.columns
    ensures SectorBest(t, s) == SectorBest(u, s)
  {
    var a, b := SectorBest(t, s), SectorBest(u, s);
    if a.Some? && b.Some? {
      var la :| la in t.laps && SectorTime(la, s) == a;
      var lb :| lb in u.laps && SectorTime(lb, s) == b;
      assert b.value <= a.value;
      assert a.value <= b.value;
    }
  }

  /** The best time of a sector over two laps that both recorded it. */
  lemma SectorBestOfTwoLaps(a: Lap, b: Lap, columns: set<Sector>, s: Sector)
    requires s in columns
    requires SectorTime(a, s).Some? && SectorTime(b, s).Some?
    ensures SectorBest(LapTable([a, b], columns), s) ==
      if SectorTime(a, s).value <= SectorTime(b, s).value then SectorTime(a, s) else SectorTime(b, s)
  {
    var t := LapTable([a, b], columns);
    assert forall l :: l in t.laps <==> l == a || l == b;
    assert a in t.laps && b in t.laps;
    var m := SectorBest(t, s);
    var l :| l in t.laps && SectorTime(l, s) == m;
  }

  /** When only one lap recorded a sector, that lap's time is the sector's best. */
  lemma SectorBestOfOnlyTimedLap(t: LapTable, lap: Lap, s: Sector)
    requires s in t.columns && lap in t.laps && SectorTime(lap, s).Some?
    requires forall l :: l in t.laps && SectorTime(l, s).Some? ==> l == lap
    ensures SectorBest(t, s) == SectorTime(lap, s)
  {
    var m := SectorBest(t, s);
    var l :| l in t.laps && SectorTime(l, s) == m;
  }

  /**
   * Two laps of one driver, times in milliseconds: the sector bests come from
   * different laps, 29.5 s + 30.0 s + 30.123 s, so the optimum is 89.623 s
   * although neither lap was faster than 90.123 s.
   */
  lemma TwoLapExample()
    ensures OptimizedLap(LapTable([
      Lap("VER", Some(90123), Some(30000), Some(30000), Some(30123)),
      Lap("VER", Some(91000), Some(29500), Some(30500), Some(31000))], {Sector1, Sector2, Sector3})) == Some(89623)
  {
    var a := Lap("VER", Some(90123), Some(30000), Some(30000), Some(30123));
    var b := Lap("VER", Some(91000), Some(29500), Some(30500), Some(31000));
    var t := LapTable([a, b], {Sector1, Sector2, Sector3});
    SectorBestOfTwoLaps(a, b, {Sector1, Sector2, Sector3}, Sector1);
    SectorBestOfTwoLaps(a, b, {Sector1, Sector2, Sector3}, Sector2);
    SectorBestOfTwoLaps(a, b, {Sector1, Sector2, Sector3}, Sector3);
    assert Term(t, Sector1) == 29500 && Term(t, Sector2) == 30000 && Term(t, Sector3) == 30123;
  }
}
