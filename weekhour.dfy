/** WeekHourSplit: one visit from an enter time to a leave time, cut into
    slices at every top of the hour.  Each slice becomes a copy of the row
    with the slice's hour of the day, its weekday, its own length and the
    visit's total length, and with the start and end columns replaced by the
    slice's bounds.

    A timestamp is a whole number of microseconds since 0001-01-01 00:00,
    which was a Monday; hours, weekdays and lengths in seconds are computed
    from that count. */
module WeekHour {
  import opened Values

  /** One hour and one day in microseconds. */
  const Hour: int := 3_600_000_000
  const Day: int := 24 * Hour

  /** `strftime('%a')`, indexed from Monday. */
  const WeekDays: seq<string> := ["Mon", "Tue", "Wed", "Thu", "Fri", "Sat", "Sun"]

  /** The columns read and written; the last four have default names. */
  datatype Columns = Columns(start: string, end: string, hour: string, week: string,
                             hourTime: string, totalTime: string)

  function DefaultColumns(start: string, end: string): Columns {
    Columns(start, end, "hour", "weekday", "hour_time", "total_time")
  }

  /** A timestamp column: missing is an error, and so is anything that is
      not a point in time. */
  function Timestamp(column: string, r: Row): (res: Result<nat>)
    ensures column !in r ==> res == Err(MissingField(column))
    ensures res.Ok? <==> column in r && r[column].IntV? && r[column].i >= 0
    ensures res.Ok? ==> res.value == r[column].i
  {
    if column !in r then Err(MissingField(column))
    else if !r[column].IntV? || r[column].i < 0 then Err(TypeMismatch(column))
    else Ok(r[column].i)
  }

  /** `(t + timedelta(hours=1)).replace(minute=0, second=0, microsecond=0)`:
      the next top of the hour strictly after `t`. */
  function NextHour(t: nat): (n: nat)
    ensures t < n <= t + Hour
    ensures n % Hour == 0
  {
    var q := t / Hour;
    assert t == q * Hour + t % Hour;
    assert (q + 1) * Hour == q * Hour + Hour;
    (q + 1) * Hour
  }

  /** Every instant from `t` up to (but not including) the next top of the
      hour lies in the same hour as `t`. */
  lemma SameHour(t: nat, u: nat)
    requires t <= u < NextHour(t)
    ensures u / Hour == t / Hour
  {
    var q := t / Hour;
    assert q * Hour <= t by {
      assert t == q * Hour + t % Hour;
    }
    assert NextHour(t) == q * Hour + Hour;
    var m := u - q * Hour;
    assert 0 <= m < Hour;
    assert u == q * Hour + m;
  }

  /** `datetime.hour` */
  function HourOfDay(t: nat): (h: nat)
    ensures h < 24
  {
    (t / Hour) % 24
  }

  /** `strftime('%a')` */
  function WeekDay(t: nat): string {
    WeekDays[(t / Day) % 7]
  }

  /** `min(next top of the hour, db)` */
  function StepEnd(t: nat, b: nat): (e: nat)
    ensures e > t || e == b
  {
    if NextHour(t) < b then NextHour(t) else b
  }

  /** A slice of the visit, as `[from, to)` in microseconds. */
  datatype Slice = Slice(from: nat, to: nat)

  /** The slices the loop produces from `t` up to `b`. */
  function Slices(t: nat, b: nat): seq<Slice>
    decreases b - t
  {
    if t >= b then [] else [Slice(t, StepEnd(t, b))] + Slices(StepEnd(t, b), b)
  }

  /** The slices start at `t`, end at `b`, follow one another without gap or
      overlap, are non-empty, and none crosses a top of the hour. */
  lemma {:induction false} SlicesCover(t: nat, b: nat)
    ensures var s := Slices(t, b);
      (s == [] <==> t >= b) &&
      (s != [] ==> s[0].from == t && s[|s| - 1].to == b)
    ensures var s := Slices(t, b);
      forall i :: 0 <= i < |s| - 1 ==> s[i].to == s[i + 1].from
    ensures var s := Slices(t, b);
      forall i :: 0 <= i < |s| ==> t <= s[i].from < s[i].to <= b && s[i].to <= NextHour(s[i].from)
    decreases b - t
  {
    if t < b {
      var e := StepEnd(t, b);
      SlicesCover(e, b);
      var s := Slices(t, b);
      var rest := Slices(e, b);
      assert s == [Slice(t, e)] + rest;
      assert rest != [] ==> rest[0].from == e;
      forall i | 0 <= i < |s| - 1 ensures s[i].to == s[i + 1].from {
        if i > 0 { assert s[i] == rest[i - 1] && s[i + 1] == rest[i]; }
      }
      forall i | 0 <= i < |s|
        ensures t <= s[i].from < s[i].to <= b && s[i].to <= NextHour(s[i].from)
      {
        if i > 0 { assert s[i] == rest[i - 1]; }
      }
    }
  }

  /** No slice crosses a top of the hour: its first and last instants are in
      the same hour. */
  lemma SlicesWithinHour(t: nat, b: nat, i: nat)
    requires i < |Slices(t, b)|
    ensures var s := Slices(t, b)[i];
      s.from < s.to && (s.to - 1) / Hour == s.from / Hour
  {
    SlicesCover(t, b);
    var s := Slices(t, b)[i];
    SameHour(s.from, s.to - 1);
  }

  /** The total length of some slices. */
  ghost function Duration(s: seq<Slice>): int {
    if s == [] then 0 else (s[0].to - s[0].from) + Duration(s[1..])
  }

  /** The slice lengths add up to the length of the visit. */
  lemma {:induction false} SlicesDuration(t: nat, b: nat)
    ensures Duration(Slices(t, b)) == if t < b then b - t else 0
    decreases b - t
  {
    if t < b {
      var e := StepEnd(t, b);
      SlicesDuration(e, b);
      assert Slices(t, b)[1..] == Slices(e, b);
    }
  }

  /** `timedelta.total_seconds()` of a number of microseconds. */
  function Seconds(us: int): real {
    us as real / 1000000.0
  }

  /** The row one slice yields; later assignments win over earlier ones
      when two column names coincide. */
  function SliceRow(r: Row, cols: Columns, total: real, s: Slice): Row {
    r[cols.hour := IntV(HourOfDay(s.from))]
     [cols.week := StrV(WeekDay(s.from))]
     [cols.hourTime := RealV(Seconds(s.to - s.from))]
     [cols.totalTime := RealV(total)]
     [cols.start := IntV(s.from)]
     [cols.end := IntV(s.to)]
  }

  function SliceRows(r: Row, cols: Columns, total: real, s: seq<Slice>): (rows: seq<Row>)
    ensures |rows| == |s|
    ensures forall i :: 0 <= i < |s| ==> rows[i] == SliceRow(r, cols, total, s[i])
  {
    if s == [] then [] else [SliceRow(r, cols, total, s[0])] + SliceRows(r, cols, total, s[1..])
  }

  /** What WeekHourSplit yields for one row: the start column is read first. */
  function Split(cols: Columns, r: Row): Result<seq<Row>> {
    var a := Timestamp(cols.start, r);
    if a.Err? then Err(a.error)
    else
      var b := Timestamp(cols.end, r);
      if b.Err? then Err(b.error)
      else Ok(SliceRows(r, cols, Seconds(b.value - a.value), Slices(a.value, b.value)))
  }

  /** A successful split: both timestamps are there, and the rows are those
      of the slices between them. */
  lemma SplitRows(cols: Columns, r: Row)
    requires Split(cols, r).Ok?
    ensures cols.start in r && r[cols.start].IntV? && r[cols.start].i >= 0
    ensures cols.end in r && r[cols.end].IntV? && r[cols.end].i >= 0
    ensures var a, b := r[cols.start].i, r[cols.end].i;
      Split(cols, r) == Ok(SliceRows(r, cols, Seconds(b - a), Slices(a, b)))
  {
    var a, b := Timestamp(cols.start, r), Timestamp(cols.end, r);
    assert a.Ok? && b.Ok?;
  }

  /** The slicing loop: `step_da` advances to `step_db` until it reaches the
      leave time. */
  method WeekHourSplit(cols: Columns, r: Row) returns (res: Result<seq<Row>>)
    ensures res == Split(cols, r)
  {
    var a := Timestamp(cols.start, r);
    if a.Err? { return Err(a.error); }
    var b := Timestamp(cols.end, r);
    if b.Err? { return Err(b.error); }
    var da, db := a.value, b.value;
    var total := Seconds(db as int - da);
    var stepA := da;
    var stepB := StepEnd(stepA, db);
    var out: seq<Row> := [];
    while stepA < db
      invariant stepB == StepEnd(stepA, db)
      invariant SliceRows(r, cols, total, Slices(da, db)) == out + SliceRows(r, cols, total, Slices(stepA, db))
      decreases db as int - stepA
    {
      var row := SliceRow(r, cols, total, Slice(stepA, stepB));
      assert SliceRows(r, cols, total, Slices(stepA, db)) ==
        [row] + SliceRows(r, cols, total, Slices(stepB, db));
      out := out + [row];
      stepA := stepB;
      stepB := StepEnd(stepA, db);
    }
    assert out + [] == out;
    res := Ok(out);
  }

  /** The column names do not collide. */
  predicate DistinctColumns(cols: Columns) {
    var names := [cols.start, cols.end, cols.hour, cols.week, cols.hourTime, cols.totalTime];
    forall i, j :: 0 <= i < j < |names| ==> names[i] != names[j]
  }

  /** With distinct column names, each row keeps the other fields of the input. */
  lemma SliceRowKeeps(r: Row, cols: Columns, total: real, s: Slice)
    requires DistinctColumns(cols)
    ensures var row := SliceRow(r, cols, total, s);
      row.Keys == r.Keys + {cols.start, cols.end, cols.hour, cols.week, cols.hourTime, cols.totalTime} &&
      (forall k :: k in r && k !in {cols.start, cols.end, cols.hour, cols.week, cols.hourTime, cols.totalTime} ==>
         row[k] == r[k])
  {
  }

  /** With distinct column names, each row carries the slice's hour of the
      day, weekday, length and bounds, and the visit's total length. */
  lemma SliceRowValues(r: Row, cols: Columns, total: real, s: Slice)
    requires DistinctColumns(cols)
    ensures var row := SliceRow(r, cols, total, s);
      row[cols.start] == IntV(s.from) && row[cols.end] == IntV(s.to) &&
      row[cols.hour] == IntV(HourOfDay(s.from)) && row[cols.week] == StrV(WeekDay(s.from)) &&
      row[cols.hourTime] == RealV(Seconds(s.to - s.from)) && row[cols.totalTime] == RealV(total)
  {
    var names := [cols.start, cols.end, cols.hour, cols.week, cols.hourTime, cols.totalTime];
    assert names[0] == cols.start && names[1] == cols.end && names[2] == cols.hour;
    assert names[3] == cols.week && names[4] == cols.hourTime && names[5] == cols.totalTime;
  }

  /** The sum of a column of real values. */
  ghost function RealTotal(rows: seq<Row>, column: string): real
    requires forall i :: 0 <= i < |rows| ==> column in rows[i] && rows[i][column].RealV?
  {
    if rows == [] then 0.0 else rows[0][column].r + RealTotal(rows[1..], column)
  }

  /** The hour_time values of some slices' rows add up to the slices' length. */
  lemma {:induction false} HourTimesAddUp(r: Row, cols: Columns, total: real, s: seq<Slice>)
    requires DistinctColumns(cols)
    ensures var rows := SliceRows(r, cols, total, s);
      (forall i :: 0 <= i < |rows| ==> cols.hourTime in rows[i] && rows[i][cols.hourTime].RealV?) &&
      RealTotal(rows, cols.hourTime) == Seconds(Duration(s))
  {
    var rows: seq<Row> := SliceRows(r, cols, total, s);
    forall i | 0 <= i < |rows| ensures cols.hourTime in rows[i] && rows[i][cols.hourTime].RealV? {
      SliceRowValues(r, cols, total, s[i]);
    }
    if s != [] {
      HourTimesAddUp(r, cols, total, s[1..]);
      SliceRowValues(r, cols, total, s[0]);
      assert rows[1..] == SliceRows(r, cols, total, s[1..]);
    }
  }

  /** The hour_time values add up to `total`, which every row carries as total_time. */
  ghost predicate TimesAddUp(rows: seq<Row>, cols: Columns, total: real) {
    (forall i :: 0 <= i < |rows| ==> cols.hourTime in rows[i] && rows[i][cols.hourTime].RealV?) &&
    RealTotal(rows, cols.hourTime) == total &&
    (forall i :: 0 <= i < |rows| ==> cols.totalTime in rows[i] && rows[i][cols.totalTime] == RealV(total))
  }

  /** The first row starts at `a`, the last ends at `b`, and each row's end
      is the next row's start. */
  ghost predicate Contiguous(rows: seq<Row>, cols: Columns, a: nat, b: nat) {
    (rows != [] ==> cols.start in rows[0] && rows[0][cols.start] == IntV(a) &&
                    cols.end in rows[|rows| - 1] && rows[|rows| - 1][cols.end] == IntV(b)) &&
    (forall i, j :: 0 <= i && j == i + 1 && j < |rows| ==>
       cols.end in rows[i] && cols.start in rows[j] && rows[i][cols.end] == rows[j][cols.start])
  }

  /** For a visit from `a` to `b`: no rows when `a >= b`; otherwise the
      hour_time values add up to total_time, which every row carries. */
  lemma RowsTimes(r: Row, cols: Columns, a: nat, b: nat)
    requires DistinctColumns(cols)
    ensures var rows := SliceRows(r, cols, Seconds(b - a), Slices(a, b));
      (rows == [] <==> a >= b) && (a < b ==> TimesAddUp(rows, cols, Seconds(b - a)))
  {
    var s := Slices(a, b);
    var total := Seconds(b - a);
    SlicesCover(a, b);
    SlicesDuration(a, b);
    HourTimesAddUp(r, cols, total, s);
    var rows: seq<Row> := SliceRows(r, cols, total, s);
    forall i | 0 <= i < |rows| ensures cols.totalTime in rows[i] && rows[i][cols.totalTime] == RealV(total) {
      SliceRowValues(r, cols, total, s[i]);
    }
  }

  /** The rows of the slices from `a` to `b` are contiguous. */
  lemma RowsContiguous(r: Row, cols: Columns, a: nat, b: nat)
    requires DistinctColumns(cols)
    ensures Contiguous(SliceRows(r, cols, Seconds(b - a), Slices(a, b)), cols, a, b)
  {
    var s := Slices(a, b);
    var total := Seconds(b - a);
    SlicesCover(a, b);
    var rows: seq<Row> := SliceRows(r, cols, total, s);
    forall i, j | 0 <= i && j == i + 1 && j < |rows|
      ensures cols.end in rows[i] && cols.start in rows[j] && rows[i][cols.end] == rows[j][cols.start]
    {
      SliceRowValues(r, cols, total, s[i]);
      SliceRowValues(r, cols, total, s[j]);
    }
    if rows != [] {
      SliceRowValues(r, cols, total, s[0]);
      SliceRowValues(r, cols, total, s[|s| - 1]);
    }
  }

  /** WeekHourSplit on one row, with enter time `a` and leave time `b`: no
      rows when `a >= b`; otherwise the hour_time values add up to
      total_time, which every row carries, and the rows are contiguous
      from `a` to `b`. */
  lemma SplitShape(cols: Columns, r: Row, rows: seq<Row>)
    requires DistinctColumns(cols)
    requires Split(cols, r) == Ok(rows)
    ensures r[cols.start].IntV? && r[cols.start].i >= 0 && r[cols.end].IntV? && r[cols.end].i >= 0
    ensures rows == [] <==> r[cols.start].i >= r[cols.end].i
    ensures var a, b := r[cols.start].i, r[cols.end].i;
      a < b ==> TimesAddUp(rows, cols, Seconds(b - a))
    ensures Contiguous(rows, cols, r[cols.start].i, r[cols.end].i)
  {
    SplitRows(cols, r);
    var a, b := r[cols.start].i, r[cols.end].i;
    assert rows == SliceRows(r, cols, Seconds(b - a), Slices(a, b));
    RowsTimes(r, cols, a, b);
    RowsContiguous(r, cols, a, b);
  }

  lemma DivByHour(t: int, q: int, m: int)
    requires t == q * Hour + m && 0 <= m < Hour
    ensures t / Hour == q
  {
  }

  lemma DivByDay(t: int, q: int, m: int)
    requires t == q * Day + m && 0 <= m < Day
    ensures t / Day == q
  {
  }

  /** A visit from 12:34:10.1794 to 14:39:12.68 on Tuesday 2017-09-12 is cut
      at 13:00 and 14:00 into slices of 1549.8206, 3600 and 2352.68 seconds. */
  lemma AcrossHoursExample()
    ensures var a, b := 63640816450179400, 63640823952680000;
      var h13, h14 := 63640818000000000, 63640821600000000;
      Slices(a, b) == [Slice(a, h13), Slice(h13, h14), Slice(h14, b)] &&
      HourOfDay(a) == 12 && HourOfDay(h13) == 13 && HourOfDay(h14) == 14 &&
      WeekDay(a) == "Tue" && WeekDay(h14) == "Tue" &&
      Seconds(h13 - a) == 1549.8206 && Seconds(h14 - h13) == 3600.0 && Seconds(b - h14) == 2352.68 &&
      Seconds(b - a) == 7502.5006
  {
    var a, b := 63640816450179400, 63640823952680000;
    var h13, h14 := 63640818000000000, 63640821600000000;
    DivByHour(a, 17678004, 2050179400);
    DivByHour(h13, 17678005, 0);
    DivByHour(h14, 17678006, 0);
    DivByDay(a, 736583, 45250179400);
    DivByDay(h14, 736583, 50400000000);
    assert NextHour(a) == h13 && NextHour(h13) == h14 && NextHour(h14) > b;
    assert Slices(b, b) == [];
    assert Slices(h14, b) == [Slice(h14, b)];
    assert Slices(h13, b) == [Slice(h13, h14), Slice(h14, b)];
  }

  /** A visit from 23:34:10.1794 on Monday 2017-09-11 to 01:34:12.68 the next
      day falls into hours 23, 0 and 1, on Monday, Tuesday and Tuesday. */
  lemma AcrossDaysExample()
    ensures var a, b := 63640769650179400, 63640776852680000;
      var h0, h1 := 63640771200000000, 63640774800000000;
      Slices(a, b) == [Slice(a, h0), Slice(h0, h1), Slice(h1, b)] &&
      HourOfDay(a) == 23 && HourOfDay(h0) == 0 && HourOfDay(h1) == 1 &&
      WeekDay(a) == "Mon" && WeekDay(h0) == "Tue" && WeekDay(h1) == "Tue" &&
      Seconds(h0 - a) == 1549.8206 && Seconds(h1 - h0) == 3600.0 && Seconds(b - h1) == 2052.68 &&
      Seconds(b - a) == 7202.5006
  {
    var a, b := 63640769650179400, 63640776852680000;
    var h0, h1 := 63640771200000000, 63640774800000000;
    DivByHour(a, 17677991, 2050179400);
    DivByHour(h0, 17677992, 0);
    DivByHour(h1, 17677993, 0);
    DivByDay(a, 736582, 84850179400);
    DivByDay(h0, 736583, 0);
    DivByDay(h1, 736583, 3600000000);
    assert NextHour(a) == h0 && NextHour(h0) == h1 && NextHour(h1) > b;
    assert Slices(b, b) == [];
    assert Slices(h1, b) == [Slice(h1, b)];
    assert Slices(h0, b) == [Slice(h0, h1), Slice(h1, b)];
  }
}
