/**
 * The "Analyze" action of f1_gui.py, without its widgets: normalise the
 * driver code typed by the user, narrow the session's laps to that driver,
 * and run the three early exits in order (no laps, no fastest lap time, no
 * sector-based optimum) before the pair (actual, optimized) is plotted.
 */
module Analysis {
  import opened LapData
  import opened Optimized

  /** Python's `str.isspace`: the characters `str.strip()` removes. */
  predicate IsSpace(c: char)
  {
    || c == ' ' || c == '\t' || c == '\n' || c == '\r' || c == '\U{B}' || c == '\U{C}'
    || ('\U{1C}' <= c <= '\U{1F}') || c == '\U{85}' || c == '\U{A0}' || c == '\U{1680}'
    || ('\U{2000}' <= c <= '\U{200A}') || c == '\U{2028}' || c == '\U{2029}' || c == '\U{202F}'
    || c == '\U{205F}' || c == '\U{3000}'
  }

  predicate AllSpace(s: string)
  {
    forall k :: 0 <= k < |s| ==> IsSpace(s[k])
  }

  /** How many whitespace characters `s` starts with. */
  function LeadingSpaces(s: string): (n: nat)
    ensures n <= |s|
    ensures forall k :: 0 <= k < n ==> IsSpace(s[k])
    ensures n < |s| ==> !IsSpace(s[n])
  {
    if s != [] && IsSpace(s[0]) then 1 + LeadingSpaces(s[1..]) else 0
  }

  /** How many whitespace characters `s` ends with. */
  function TrailingSpaces(s: string): (n: nat)
    ensures n <= |s|
    ensures forall k :: |s| - n <= k < |s| ==> IsSpace(s[k])
    ensures n < |s| ==> !IsSpace(s[|s| - n - 1])
  {
    if s != [] && IsSpace(s[|s| - 1]) then 1 + TrailingSpaces(s[..|s| - 1]) else 0
  }

  /**
   * `str.strip()`: a part of `s` that neither starts nor ends with
   * whitespace, empty exactly when `s` is all whitespace.
   */
  function Strip(s: string): (r: string)
    ensures |r| <= |s|
    ensures r == [] || (!IsSpace(r[0]) && !IsSpace(r[|r| - 1]))
    ensures r == [] <==> AllSpace(s)
  {
    var i := LeadingSpaces(s);
    var j := |s| - TrailingSpaces(s[i..]);
    assert i < |s| ==> s[i..][0] == s[i];
    s[i..j]
  }

  /** What `str.strip()` cuts off on either side is whitespace, and nothing else is cut. */
  lemma StripSplit(s: string) returns (pre: string, post: string)
    ensures s == pre + Strip(s) + post
    ensures AllSpace(pre) && AllSpace(post)
  {
    var i := LeadingSpaces(s);
    var j := |s| - TrailingSpaces(s[i..]);
    pre, post := s[..i], s[j..];
    assert s == s[..i] + s[i..j] + s[j..];
  }

  /** `str.upper()` on one character, for the ASCII letters. */
  function UpperChar(c: char): char
  {
    if 'a' <= c <= 'z' then (c as int - 32) as char else c
  }

  /**
   * `str.upper()`, character by character: the same length, every lower-case
   * ASCII letter replaced by its upper-case letter, every other character
   * kept in place.
   */
  function Upper(s: string): (r: string)
    ensures |r| == |s|
    ensures forall k :: 0 <= k < |s| ==> !('a' <= r[k] <= 'z')
    ensures forall k :: 0 <= k < |s| && !('a' <= s[k] <= 'z') ==> r[k] == s[k]
    ensures forall k :: 0 <= k < |s| && 'a' <= s[k] <= 'z' ==>
      'A' <= r[k] <= 'Z' && r[k] as int - 'A' as int == s[k] as int - 'a' as int
    ensures forall k :: 0 <= k < |s| ==> (IsSpace(r[k]) <==> IsSpace(s[k]))
  {
    seq(|s|, k requires 0 <= k < |s| => UpperChar(s[k]))
  }

  /**
   * The driver entry, `.strip().upper() or None`: nothing when the entry is
   * blank, otherwise the entry with surrounding whitespace cut off and
   * upper-cased.
   */
  function NormalizeDriver(raw: string): (d: Option<string>)
    ensures d.None? <==> AllSpace(raw)
    ensures d.Some? ==> d.value != [] && !IsSpace(d.value[0]) && !IsSpace(d.value[|d.value| - 1])
    ensures d.Some? ==> forall k :: 0 <= k < |d.value| ==> !('a' <= d.value[k] <= 'z')
    ensures d.Some? ==> |d.value| <= |raw|
    ensures d.Some? ==> d.value == Upper(Strip(raw))
  {
    var stripped := Strip(raw);
    var code := Upper(stripped);
    if code == [] then None else Some(code)
  }

  /** A string with no whitespace at either end is left alone by `str.strip()`. */
  lemma StripKeepsTrimmed(s: string)
    requires s != [] && !IsSpace(s[0]) && !IsSpace(s[|s| - 1])
    ensures Strip(s) == s
  {
    assert LeadingSpaces(s) == 0;
    assert s[0..] == s;
  }

  /** A string with no lower-case ASCII letter is left alone by `str.upper()`. */
  lemma UpperKeepsUpper(s: string)
    requires forall k :: 0 <= k < |s| ==> !('a' <= s[k] <= 'z')
    ensures Upper(s) == s
  {
  }

  /** A code that is already normalised normalises to itself. */
  lemma NormalizeIdempotent(raw: string)
    requires NormalizeDriver(raw).Some?
    ensures NormalizeDriver(NormalizeDriver(raw).value) == NormalizeDriver(raw)
  {
    var code := NormalizeDriver(raw).value;
    StripKeepsTrimmed(code);
    UpperKeepsUpper(code);
  }

  /**
   * `ses.laps if drv is None else ses.laps.pick_driver(drv)`: the whole
   * session for a blank entry, otherwise exactly the laps whose driver code
   * is the normalised entry, each as often as in the session.
   */
  function Selection(session: LapTable, raw: string): (sel: LapTable)
    ensures sel.columns == session.columns
    ensures NormalizeDriver(raw).None? ==> sel == session
    ensures NormalizeDriver(raw).Some? ==>
      forall l :: multiset(sel.laps)[l] == if l.driver == NormalizeDriver(raw).value then multiset(session.laps)[l] else 0
    ensures forall l :: l in sel.laps ==> l in session.laps
  {
    match NormalizeDriver(raw)
    case None => session
    case Some(code) => session.(laps := SelectDriver(session.laps, code))
  }

  /** Why the analysis stopped early: the three warnings of the GUI. */
  datatype Stop = NoData | NoTime | NoSectors

  /** What one press of "Analyze" produces. */
  datatype Outcome = Plot(actual: int, optimized: int) | Stopped(reason: Stop)

  /**
   * The validation chain. `fastest` is the lap the session library picks as
   * the fastest of the selection; its rule is not part of this model.
   * An empty selection stops with NoData whatever the fastest lap is; a
   * fastest lap without a time stops with NoTime whatever the sector data
   * is; a selection whose sector columns hold no time stops with NoSectors;
   * only otherwise is a pair plotted, and then both of its values exist.
   */
  function Analyze(session: LapTable, raw: string, fastest: Lap): (o: Outcome)
    ensures var sel := Selection(session, raw);
      |sel.laps| == 0 ==> o == Stopped(NoData)
    ensures var sel := Selection(session, raw);
      |sel.laps| > 0 && fastest.lapTime.None? ==> o == Stopped(NoTime)
    ensures var sel := Selection(session, raw);
      o == Stopped(NoSectors) <==>
        |sel.laps| > 0 && fastest.lapTime.Some?
        && forall s :: !(s in sel.columns && exists l :: l in sel.laps && SectorTime(l, s).Some?)
    ensures var sel := Selection(session, raw);
      o.Plot? <==>
        |sel.laps| > 0 && fastest.lapTime.Some?
        && exists s :: s in sel.columns && exists l :: l in sel.laps && SectorTime(l, s).Some?
    ensures o.Plot? ==>
      fastest.lapTime == Some(o.actual) && OptimizedLap(Selection(session, raw)) == Some(o.optimized)
  {
    var sel := Selection(session, raw);
    OptimizedAbsentIff(sel);
    if |sel.laps| == 0 then Stopped(NoData)
    else if fastest.lapTime.None? then Stopped(NoTime)
    else
      match OptimizedLap(sel)
      case None => Stopped(NoSectors)
      case Some(opt) => Plot(fastest.lapTime.value, opt)
  }

  /**
   * When the fastest lap belongs to the selection, has all three sector
   * times, and its lap time is their sum, the plotted optimum is never slower
   * than the plotted actual time.
   */
  lemma OptimizedNotSlowerThanActual(session: LapTable, raw: string, fastest: Lap)
    requires session.columns == {Sector1, Sector2, Sector3}
    requires fastest in Selection(session, raw).laps
    requires fastest.sector1.Some? && fastest.sector2.Some? && fastest.sector3.Some?
    requires fastest.lapTime == Some(fastest.sector1.value + fastest.sector2.value + fastest.sector3.value)
    ensures Analyze(session, raw, fastest).Plot?
    ensures Analyze(session, raw, fastest).optimized <= Analyze(session, raw, fastest).actual
  {
    var sel := Selection(session, raw);
    OptimizedAtMostLapSectorSum(sel, fastest);
    assert sel.laps != [];
  }

  /**
   * Without those hypotheses the plotted optimum can be slower than the
   * plotted lap: here the fastest lap recorded no sector time, so every
   * sector best comes from a lap ten seconds slower.
   */
  lemma OptimumCanBeSlowerThanActual()
    ensures var fast := Lap("VER", Some(80000), None, None, None);
      var slow := Lap("VER", Some(90000), Some(30000), Some(30000), Some(30000));
      Analyze(LapTable([fast, slow], {Sector1, Sector2, Sector3}), " ver ", fast) == Plot(80000, 90000)
  {
    var fast := Lap("VER", Some(80000), None, None, None);
    var slow := Lap("VER", Some(90000), Some(30000), Some(30000), Some(30000));
    var session := LapTable([fast, slow], {Sector1, Sector2, Sector3});
    NormalizeSpacedCode();
    SelectDriverKeepsOwnLaps(session.laps, "VER");
    OnlyTimedLapGivesOptimum(session, fast, slow);
  }

  /** Surrounding blanks and lower case are normalised away. */
  lemma NormalizeSpacedCode()
    ensures NormalizeDriver(" ver ") == Some("VER")
  {
    assert " ver "[1..] == "ver ";
    assert LeadingSpaces("ver ") == 0;
    assert LeadingSpaces(" ver ") == 1;
    assert "ver "[..3] == "ver";
    assert TrailingSpaces("ver") == 0;
    assert TrailingSpaces("ver ") == 1;
    assert " ver "[1..4] == "ver";
    assert Upper("ver") == "VER";
  }

  /** A lap without sector times beside a lap with all three: the optimum is the latter's sum. */
  lemma OnlyTimedLapGivesOptimum(t: LapTable, untimed: Lap, timed: Lap)
    requires t.laps == [untimed, timed] && t.columns == {Sector1, Sector2, Sector3}
    requires untimed.sector1.None? && untimed.sector2.None? && untimed.sector3.None?
    requires timed.sector1.Some? && timed.sector2.Some? && timed.sector3.Some?
    ensures OptimizedLap(t) == Some(timed.sector1.value + timed.sector2.value + timed.sector3.value)
  {
    assert forall l :: l in t.laps <==> l == untimed || l == timed;
    SectorBestOfOnlyTimedLap(t, timed, Sector1);
    SectorBestOfOnlyTimedLap(t, timed, Sector2);
    SectorBestOfOnlyTimedLap(t, timed, Sector3);
    assert Contributes(t, Sector1);
    assert Term(t, Sector1) == timed.sector1.value;
    assert Term(t, Sector2) == timed.sector2.value;
    assert Term(t, Sector3) == timed.sector3.value;
  }
}
