/**
 * The leap-second table, the TAI-UTC lookup that scans it, and the bundle of
 * time representations derived from a UTC Julian Date.
 *
 * Julian Dates and second counts are `real`: the lookup only compares them,
 * and the derived time scales are stated over exact reals.
 */
module LeapSeconds {

  /** One row of the table: the date a new TAI-UTC offset takes effect. */
  datatype LeapSecond = LeapSecond(year: int, month: int, day: int, jd: real, taiUtc: real)

  /** The table in force, oldest first, closed by a far-future dummy row. */
  const Table: seq<LeapSecond> := [
    LeapSecond(1972, 1, 1, 2441317.5, 10.0),
    LeapSecond(1972, 7, 1, 2441499.5, 11.0),
    LeapSecond(1973, 1, 1, 2441683.5, 12.0),
    LeapSecond(1974, 1, 1, 2442048.5, 13.0),
    LeapSecond(1975, 1, 1, 2442413.5, 14.0),
    LeapSecond(1976, 1, 1, 2442778.5, 15.0),
    LeapSecond(1977, 1, 1, 2443144.5, 16.0),
    LeapSecond(1978, 1, 1, 2443509.5, 17.0),
    LeapSecond(1979, 1, 1, 2443874.5, 18.0),
    LeapSecond(1980, 1, 1, 2444239.5, 19.0),
    LeapSecond(1981, 7, 1, 2444786.5, 20.0),
    LeapSecond(1982, 7, 1, 2445151.5, 21.0),
    LeapSecond(1983, 7, 1, 2445516.5, 22.0),
    LeapSecond(1985, 7, 1, 2446247.5, 23.0),
    LeapSecond(1988, 1, 1, 2447161.5, 24.0),
    LeapSecond(1990, 1, 1, 2447892.5, 25.0),
    LeapSecond(1991, 1, 1, 2448257.5, 26.0),
    LeapSecond(1992, 7, 1, 2448804.5, 27.0),
    LeapSecond(1993, 7, 1, 2449169.5, 28.0),
    LeapSecond(1994, 7, 1, 2449534.5, 29.0),
    LeapSecond(1996, 1, 1, 2450083.5, 30.0),
    LeapSecond(1997, 7, 1, 2450630.5, 31.0),
    LeapSecond(1999, 1, 1, 2451179.5, 32.0),
    LeapSecond(2006, 1, 1, 2453736.5, 33.0),
    LeapSecond(2009, 1, 1, 2454832.5, 34.0),
    LeapSecond(2012, 7, 1, 2456109.5, 35.0),
    LeapSecond(2015, 7, 1, 2457204.5, 36.0),
    LeapSecond(9999, 1, 1, 5373119.5, 36.0)  // dummy end record
  ]

  /** Position of the dummy end record. */
  const Last: nat := |Table| - 1

  /** The dummy end record's Julian Date: the scan stays inside the table up to here. */
  const SentinelJd: real := 5373119.5

  /** Each row takes effect strictly after its predecessor and never lowers the offset. */
  predicate StepwiseAscending(t: seq<LeapSecond>)
  {
    forall i :: 0 <= i < |t| - 1 ==> t[i].jd < t[i + 1].jd && t[i].taiUtc <= t[i + 1].taiUtc
  }

  /** Every earlier row takes effect strictly before every later one and has no larger offset. */
  predicate Ascending(t: seq<LeapSecond>)
  {
    forall i, j :: 0 <= i < j < |t| ==> t[i].jd < t[j].jd && t[i].taiUtc <= t[j].taiUtc
  }

  /** Adjacent steps compose to every pair of rows. */
  lemma {:induction false} StepwiseIsAscending(t: seq<LeapSecond>)
    requires StepwiseAscending(t)
    ensures Ascending(t)
  {
    if |t| >= 2 {
      StepwiseIsAscending(t[1..]);
      forall i, j | 0 <= i < j < |t|
        ensures t[i].jd < t[j].jd && t[i].taiUtc <= t[j].taiUtc
      {
        if 0 < i {
          assert t[i] == t[1..][i - 1] && t[j] == t[1..][j - 1];
        } else if 1 < j {
          assert t[1] == t[1..][0] && t[j] == t[1..][j - 1];
        }
      }
    }
  }

  /**
   * The table's Julian Dates are strictly ascending, its offsets never
   * decrease, they run from 10 s to 36 s, and the last row is the dummy
   * record at SentinelJd.
   */
  lemma TableAscending()
    ensures Ascending(Table)
    ensures Table[0].taiUtc == 10.0 && Table[Last].taiUtc == 36.0
    ensures Table[Last].jd == SentinelJd
  {
    forall i | 0 <= i < Last
      ensures Table[i].jd < Table[i + 1].jd && Table[i].taiUtc <= Table[i + 1].taiUtc
    {
      // split the rows into short runs; each run is checked against the literal table
      if i < 7 {
      } else if i < 14 {
      } else if i < 21 {
      } else {
      }
    }
    StepwiseIsAscending(Table);
  }

  /** How many rows of `t` take effect strictly before `jd`. */
  function CountBefore(t: seq<LeapSecond>, jd: real): (n: nat)
    ensures n <= |t|
  {
    if t == [] then 0 else (if t[0].jd < jd then 1 else 0) + CountBefore(t[1..], jd)
  }

  /** In an ascending table, the rows before `jd` are exactly a prefix. */
  lemma {:induction false} CountBeforePrefix(t: seq<LeapSecond>, jd: real, m: nat)
    requires m <= |t|
    requires forall k :: 0 <= k < m ==> t[k].jd < jd
    requires forall k :: m <= k < |t| ==> jd <= t[k].jd
    ensures CountBefore(t, jd) == m
  {
    if t != [] {
      CountBeforePrefix(t[1..], jd, if m == 0 then 0 else m - 1);
    }
  }

  /** A later date has at least as many rows before it. */
  lemma {:induction false} CountBeforeMonotone(t: seq<LeapSecond>, jd1: real, jd2: real)
    requires jd1 <= jd2
    ensures CountBefore(t, jd1) <= CountBefore(t, jd2)
  {
    if t != [] {
      CountBeforeMonotone(t[1..], jd1, jd2);
    }
  }

  /**
   * The row whose offset is in force at `jd`: the first row, advanced once for
   * every later row that took effect strictly before `jd`.
   */
  function EntryIndex(jd: real): (i: nat)
    requires jd <= SentinelJd
    ensures i < Last
  {
    TableAscending();
    var i := CountBefore(Table[1..], jd);
    assert Table[Last] == Table[1..][Last - 1];
    assert i < Last by {
      if i == Last {
        // then every row after the first, the dummy included, is before jd
        CountBeforeAll(Table[1..], jd);
      }
    }
    i
  }

  lemma {:induction false} CountBeforeAll(t: seq<LeapSecond>, jd: real)
    requires CountBefore(t, jd) == |t|
    ensures forall k :: 0 <= k < |t| ==> t[k].jd < jd
  {
    if t != [] {
      assert CountBefore(t[1..], jd) <= |t| - 1;
      CountBeforeAll(t[1..], jd);
      forall k | 1 <= k < |t| ensures t[k].jd < jd {
        assert t[k] == t[1..][k - 1];
      }
    }
  }

  /** TAI-UTC in seconds in force at UTC Julian Date `jd`. */
  function TaiUtc(jd: real): real
    requires jd <= SentinelJd
  {
    Table[EntryIndex(jd)].taiUtc
  }

  /**
   * Row `i` governs `jd` when `jd` falls in (Table[i].jd, Table[i+1].jd],
   * where the first row's window is open to the left.
   */
  predicate InWindow(i: nat, jd: real)
  {
    i < Last && (i == 0 || Table[i].jd < jd) && jd <= Table[i + 1].jd
  }

  /** A row whose window holds `jd` is the row EntryIndex picks. */
  lemma WindowGivesEntryIndex(i: nat, jd: real)
    requires jd <= SentinelJd
    requires InWindow(i, jd)
    ensures i == EntryIndex(jd)
  {
    TableAscending();
    var t := Table[1..];
    forall k | 0 <= k < i ensures t[k].jd < jd {
      assert t[k] == Table[k + 1];
    }
    forall k | i <= k < |t| ensures jd <= t[k].jd {
      assert t[k] == Table[k + 1];
    }
    CountBeforePrefix(t, jd, i);
  }

  /** The row EntryIndex picks has `jd` in its window. */
  lemma EntryIndexInWindow(jd: real)
    requires jd <= SentinelJd
    ensures InWindow(EntryIndex(jd), jd)
  {
    TableAscending();
    var t := Table[1..];
    var e := EntryIndex(jd);
    if 0 < e {
      NthBefore(t, jd, e);
      assert t[e - 1] == Table[e];
    }
    NextNotBefore(t, jd, e);
    assert t[e] == Table[e + 1];
  }

  /** Row `i` governs `jd` exactly when it is the row EntryIndex picks. */
  lemma WindowIsEntryIndex(i: nat, jd: real)
    requires jd <= SentinelJd
    ensures InWindow(i, jd) <==> i == EntryIndex(jd)
  {
    if InWindow(i, jd) {
      WindowGivesEntryIndex(i, jd);
    }
    EntryIndexInWindow(jd);
  }

  /** In an ascending table with `n` rows before `jd`, row n-1 is one of them. */
  lemma {:induction false} NthBefore(t: seq<LeapSecond>, jd: real, n: nat)
    requires Ascending(t) && 0 < n == CountBefore(t, jd)
    ensures t[n - 1].jd < jd
  {
    if t[0].jd < jd {
      if 1 < n {
        NthBefore(t[1..], jd, n - 1);
        assert t[n - 1] == t[1..][n - 2];
      }
    } else {
      // no row is before jd at all
      NoneBefore(t, jd);
    }
  }

  /** In an ascending table with `n` rows before `jd`, row n is not before it. */
  lemma {:induction false} NextNotBefore(t: seq<LeapSecond>, jd: real, n: nat)
    requires Ascending(t) && n == CountBefore(t, jd) && n < |t|
    ensures jd <= t[n].jd
  {
    if t[0].jd < jd {
      NextNotBefore(t[1..], jd, n - 1);
      assert t[n] == t[1..][n - 1];
    } else {
      NoneBefore(t, jd);
    }
  }

  lemma NoneBefore(t: seq<LeapSecond>, jd: real)
    requires Ascending(t) && t != [] && jd <= t[0].jd
    ensures CountBefore(t, jd) == 0
  {
  }

  /**
   * For consecutive rows with Table[i].jd < jd <= Table[i+1].jd the lookup
   * yields row i's offset; any date up to the second row's date yields the
   * first row's 10 s.
   */
  lemma WindowLookup(i: nat, jd: real)
    requires InWindow(i, jd)
    ensures TaiUtc(jd) == Table[i].taiUtc
  {
    WindowIsEntryIndex(i, jd);
  }

  /** On the exact date of row i, the dummy row included, the lookup still yields row i-1's offset. */
  lemma ExactDateGivesPrevious(i: nat)
    requires 1 <= i <= Last
    ensures TaiUtc(Table[i].jd) == Table[i - 1].taiUtc
  {
    TableAscending();
    WindowLookup(i - 1, Table[i].jd);
  }

  /** The lookup at the 2015 leap second and around it. */
  lemma Around2015()
    ensures TaiUtc(2457204.4) == 35.0
    ensures TaiUtc(2457204.5) == 35.0
    ensures TaiUtc(2457204.6) == 36.0
  {
    WindowLookup(25, 2457204.4);
    WindowLookup(25, 2457204.5);
    WindowLookup(26, 2457204.6);
  }

  /** Every date up to the 1972-07-01 row, including dates before 1972, yields 10 s. */
  lemma EarlyDatesFloor(jd: real)
    requires jd <= 2441499.5
    ensures TaiUtc(jd) == 10.0
  {
    WindowLookup(0, jd);
  }

  /** The lookup never decreases as the date advances. */
  lemma TaiUtcMonotone(jd1: real, jd2: real)
    requires jd1 <= jd2 <= SentinelJd
    ensures TaiUtc(jd1) <= TaiUtc(jd2)
  {
    TableAscending();
    CountBeforeMonotone(Table[1..], jd1, jd2);
  }

  /** The lookup always lies between the first and the last offset. */
  lemma TaiUtcBounds(jd: real)
    requires jd <= SentinelJd
    ensures 10.0 <= TaiUtc(jd) <= 36.0
  {
    TableAscending();
    var e := EntryIndex(jd);
    if 0 < e {
      assert Table[0].taiUtc <= Table[e].taiUtc;
    }
    assert Table[e].taiUtc <= Table[Last].taiUtc;
  }

  /**
   * `leapsec_tai_utc`: walk the table while the NEXT row's date is still
   * strictly before `jdUtc`, then answer the current row's offset. The caller
   * must not pass a date beyond the dummy end record, or the walk would run
   * off the end of the table.
   */
  method LeapsecTaiUtc(jdUtc: real) returns (r: real)
    requires jdUtc <= SentinelJd
    ensures r == TaiUtc(jdUtc)
  {
    TableAscending();
    var i := 0;
    while Table[i + 1].jd < jdUtc
      invariant 0 <= i < Last
      invariant forall k :: 1 <= k <= i ==> Table[k].jd < jdUtc
      decreases Last - i
    {
      i := i + 1;
    }
    assert InWindow(i, jdUtc);
    WindowLookup(i, jdUtc);
    r := Table[i].taiUtc;
  }

  /** The time representations derived from one UTC Julian Date. */
  datatype TimeParameters = TimeParameters(
    jdUtc: real,    // UTC Julian Date
    leapsecs: real, // TAI-UTC in seconds
    jdTt: real,     // Terrestrial Time Julian Date
    jdUt1: real,    // UT1 Julian Date
    deltaT: real    // TT-UT1 in seconds
  )

  /** TT-TAI in seconds. */
  const TtMinusTai: real := 32.184

  const SecondsPerDay: real := 86400.0

  /**
   * `make_time_parameters`: the bundle for `jdUtc` given the UT1-UTC offset
   * `ut1Utc` in seconds. TT runs ahead of UTC by the leap seconds plus
   * 32.184 s, UT1 by `ut1Utc`, and Delta-T is the distance between the two.
   */
  method MakeTimeParameters(jdUtc: real, ut1Utc: real) returns (tp: TimeParameters)
    requires jdUtc <= SentinelJd
    ensures tp.jdUtc == jdUtc
    ensures tp.leapsecs == TaiUtc(jdUtc)
    ensures 10.0 <= tp.leapsecs <= 36.0
    ensures (tp.jdTt - tp.jdUtc) * SecondsPerDay == tp.leapsecs + TtMinusTai
    ensures (tp.jdUt1 - tp.jdUtc) * SecondsPerDay == ut1Utc
    ensures tp.deltaT == (tp.jdTt - tp.jdUt1) * SecondsPerDay
  {
    var leapsecs := LeapsecTaiUtc(jdUtc);
    TaiUtcBounds(jdUtc);
    tp := TimeParameters(
      jdUtc,
      leapsecs,
      jdUtc + (leapsecs + TtMinusTai) / SecondsPerDay,
      jdUtc + ut1Utc / SecondsPerDay,
      TtMinusTai + leapsecs - ut1Utc);
  }
}
