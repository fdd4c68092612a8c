/**
 * The lap table as the analysis sees it: one record per lap, every duration
 * nullable, durations in integer units (a pandas Timedelta counts
 * nanoseconds; no definition depends on the unit), and the two table
 * operations shared by the GUI and the ranking script: the null-skipping minimum of a column and the per-driver filter.
 */
module LapData {

  /** A nullable value: `None` stands for pandas' NaT. */
  datatype Option<T> = None | Some(value: T)

  /** One measured lap of one driver. */
  datatype Lap = Lap(
    driver: string,
    lapTime: Option<int>,
    sector1: Option<int>,
    sector2: Option<int>,
    sector3: Option<int>)

  /** The three sector-time columns, Sector1Time, Sector2Time and Sector3Time. */
  datatype Sector = Sector1 | Sector2 | Sector3

  /** The order in which the optimiser visits the sector columns. */
  const SectorColumns: seq<Sector> := [Sector1, Sector2, Sector3]

  /**
   * A lap selection: the rows in table order, and which sector columns the
   * table has. A sector column missing from `columns` is not there at all,
   * whatever the records hold for it.
   */
  datatype LapTable = LapTable(laps: seq<Lap>, columns: set<Sector>)

  function SectorTime(lap: Lap, s: Sector): Option<int>
  {
    match s
    case Sector1 => lap.sector1
    case Sector2 => lap.sector2
    case Sector3 => lap.sector3
  }

  /** `laps_df[col]` for a sector column: `None` when the column is absent. */
  function SectorColumn(t: LapTable, s: Sector): (col: Option<seq<Option<int>>>)
    ensures col.None? <==> s !in t.columns
    ensures col.Some? ==> forall x :: x in col.value <==> exists l :: l in t.laps && SectorTime(l, s) == x
  {
    if s in t.columns then
      var c := seq(|t.laps|, i requires 0 <= i < |t.laps| => SectorTime(t.laps[i], s));
      assert forall l :: l in t.laps ==> SectorTime(l, s) in c by {
        forall l | l in t.laps ensures SectorTime(l, s) in c {
          var i :| 0 <= i < |t.laps| && t.laps[i] == l;
          assert c[i] == SectorTime(l, s);
        }
      }
      Some(c)
    else
      None
  }

  /** `laps["LapTime"]` restricted to the given rows. */
  function LapTimeColumn(laps: seq<Lap>): (col: seq<Option<int>>)
    ensures forall x :: x in col <==> exists l :: l in laps && l.lapTime == x
  {
    var c := seq(|laps|, i requires 0 <= i < |laps| => laps[i].lapTime);
    assert forall l :: l in laps ==> l.lapTime in c by {
      forall l | l in laps ensures l.lapTime in c {
        var i :| 0 <= i < |laps| && laps[i] == l;
        assert c[i] == l.lapTime;
      }
    }
    c
  }

  /**
   * pandas' `Series.min()` with its default `skipna=True`: the least non-null
   * value, or null when the column holds no non-null value (empty included).
   */
  function ColumnMin(col: seq<Option<int>>): (m: Option<int>)
    ensures m.None? <==> forall x :: x in col ==> x.None?
    ensures m.Some? ==> m in col
    ensures m.Some? ==> forall x {:trigger x in col} :: x in col && x.Some? ==> m.value <= x.value
  {
    if |col| == 0 then None
    else
      var rest := ColumnMin(col[1..]);
      assert forall x :: x in col <==> x == col[0] || x in col[1..];
      match col[0]
      case None => rest
      case Some(v) => if rest.Some? && rest.value < v then rest else Some(v)
  }

  /**
   * The rows whose driver code is `code`, in table order. Every lap keeps its
   * multiplicity when it belongs to that driver and disappears otherwise.
   */
  function SelectDriver(laps: seq<Lap>, code: string): (r: seq<Lap>)
    ensures forall l :: multiset(r)[l] == if l.driver == code then multiset(laps)[l] else 0
    ensures forall l :: l in r <==> l in laps && l.driver == code
  {
    if |laps| == 0 then []
    else
      assert laps == [laps[0]] + laps[1..];
      (if laps[0].driver == code then [laps[0]] else []) + SelectDriver(laps[1..], code)
  }

  /** Selecting a driver that every row belongs to keeps the table as it is. */
  lemma {:induction false} SelectDriverKeepsOwnLaps(laps: seq<Lap>, code: string)
    requires forall l :: l in laps ==> l.driver == code
    ensures SelectDriver(laps, code) == laps
  {
    if laps != [] {
      assert laps == [laps[0]] + laps[1..];
      SelectDriverKeepsOwnLaps(laps[1..], code);
    }
  }
}
