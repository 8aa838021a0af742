/** Turning a tick into slot-pool operations: the 12/24-hour conversion,
    the AM test, the decomposition of a row's value into one or two digits,
    and the choice of which rows a tick redraws.
 */
module TimeRender {
  import opened SlotPool

  /** The C `unsigned short` the row value, row number and hour travel in. */
  type UShort = x: int | 0 <= x < 0x1_0000

  /** Conversion of a C `int` argument to an `unsigned short` parameter:
      reduction modulo 2^16. */
  function ToUShort(x: int): (r: UShort)
    ensures 0 <= x < 0x1_0000 ==> r == x
    ensures exists k :: x == k * 0x1_0000 + r
  {
    assert x == (x / 0x1_0000) * 0x1_0000 + x % 0x1_0000;
    x % 0x1_0000
  }

  /** The Pebble SDK's time-unit flags carried in a tick's `units_changed`. */
  const MINUTE_UNIT: int := 2
  const HOUR_UNIT: int := 4

  /** The fields of the tick's `struct tm` the face reads. */
  datatype Time = Time(hour: int, minute: int)

  datatype TickEvent = TickEvent(time: Time, unitsChanged: int)

  datatype Color = White | Black

  /** The watch face: the slot pool and the window's background colour. */
  datatype Face = Face(pool: Pool, background: Color)

  /** The AM test as written: hours 0 to 10 count as AM, 11 does not. */
  predicate IsAm(hour: int) {
    hour < 11
  }

  /** The tick's row test as written, `units_changed && UNIT`: a logical and
      of two integers, true when both are nonzero. */
  predicate RowSelected(units: int, unit: int) {
    units != 0 && unit != 0
  }

  /** `get_display_hour`: the hour unchanged in 24-hour mode, otherwise the
      hour modulo 12 with 0 shown as 12. */
  function DisplayHour(hour: UShort, is24h: bool): (r: UShort)
    ensures is24h ==> r == hour
    ensures !is24h ==> 1 <= r <= 12 && r % 12 == hour % 12
  {
    if is24h then hour
    else
      var h := hour % 12;
      if h != 0 then h else 12
  }

  /** Midnight on a 12-hour clock is 12, 13 o'clock is 1, and a 24-hour
      clock shows 13 as it is. */
  lemma DisplayHourExamples()
    ensures DisplayHour(0, false) == 12
    ensures DisplayHour(13, false) == 1
    ensures DisplayHour(13, true) == 13
  {
  }

  /** The two slots of a row. */
  function LeftSlot(row: int): int { 2 * row }
  function RightSlot(row: int): int { 2 * row + 1 }

  /** The number a row of the screen reads as: the left digit alone when the
      right slot is empty, otherwise the two digits together. */
  function RowValue(p: Pool, row: int): int
    requires WellFormed(p) && 0 <= row <= 1
  {
    var left := p.state[LeftSlot(row)];
    var right := p.state[RightSlot(row)];
    if right == EMPTY_SLOT then left else 10 * left + right
  }

  /** Row `row` reads as the value `v` of 0 to 99: its left slot holds a
      digit; its right slot is empty exactly for a one-digit hour and holds a
      digit otherwise; the digits read back as `v`; and each digit's
      container holds that digit at the slot's quadrant with the style
      `isAm` selects. */
  predicate ShowsRow(p: Pool, row: int, v: int, isAm: bool)
    requires WellFormed(p) && 0 <= row <= 1
  {
    var left := p.state[LeftSlot(row)];
    var right := p.state[RightSlot(row)];
    && IsDigit(left)
    && (right == EMPTY_SLOT <==> row == 0 && v < 10)
    && (right != EMPTY_SLOT ==> IsDigit(right))
    && RowValue(p, row) == v
    && p.containers[LeftSlot(row)] == Live(left, ModeFor(isAm), Origin(LeftSlot(row)))
    && (right != EMPTY_SLOT ==>
          p.containers[RightSlot(row)] == Live(right, ModeFor(isAm), Origin(RightSlot(row))))
  }

  /** A value below 100 splits into a tens digit and a units digit. */
  lemma TwoDigits(v: int)
    requires 0 <= v < 100
    ensures IsDigit(v / 10) && IsDigit(v % 10)
    ensures v == 10 * (v / 10) + v % 10
    ensures v % 100 == v
    ensures v < 10 ==> v % 10 == v
  {
  }

  /** A row can show a value in only one way: the digits are those of its
      decimal notation, one digit for an hour below 10, two otherwise. */
  lemma ShowsRowDigits(p: Pool, row: int, v: int, isAm: bool)
    requires WellFormed(p) && 0 <= row <= 1 && 0 <= v < 100
    requires ShowsRow(p, row, v, isAm)
    ensures row == 0 && v < 10 ==>
              p.state[LeftSlot(row)] == v && p.state[RightSlot(row)] == EMPTY_SLOT
    ensures !(row == 0 && v < 10) ==>
              p.state[LeftSlot(row)] == v / 10 && p.state[RightSlot(row)] == v % 10
  {
  }

  /** `display_value`: show `value % 100` in row `row`. Each slot of the row
      is unloaded before it is reloaded; the hour row shows a value below 10
      as one digit in its left slot and clears its right slot. The source
      indexes the table without a range check, so the row must be 0 or 1. */
  function DisplayValue(p: Pool, value: UShort, row: UShort, isAm: bool): (q: Pool)
    requires WellFormed(p) && row <= 1
    ensures WellFormed(q)
    ensures var v := value % 100;
            if row == 0 && v < 10 then
              q.state[LeftSlot(row)] == v && q.state[RightSlot(row)] == EMPTY_SLOT
            else
              q.state[LeftSlot(row)] == v / 10 && q.state[RightSlot(row)] == v % 10
    ensures ShowsRow(q, row, value % 100, isAm)
    ensures forall i :: InSlotRange(i) && i != LeftSlot(row) && i != RightSlot(row) ==>
              q.state[i] == p.state[i] && q.containers[i] == p.containers[i]
    ensures Valid(p) ==> Valid(q)
  {
    var v := value % 100;
    TwoDigits(v);
    var left := LeftSlot(row);
    var p1 := Unload(p, left);
    var p2 := if v < 10 && row == 0 then Load(p1, left, v % 10, isAm)
              else Load(p1, left, v / 10, isAm);
    var right := RightSlot(row);
    var p3 := Unload(p2, right);
    if !(v < 10 && row == 0) then Load(p3, right, v % 10, isAm)
    else Unload(p3, right)
  }

  /** Showing a row depends only on that row's cells. */
  lemma ShowsRowFrame(p: Pool, q: Pool, row: int, v: int, isAm: bool)
    requires WellFormed(p) && WellFormed(q) && 0 <= row <= 1
    requires ShowsRow(p, row, v, isAm)
    requires p.state[LeftSlot(row)] == q.state[LeftSlot(row)]
    requires p.state[RightSlot(row)] == q.state[RightSlot(row)]
    requires p.containers[LeftSlot(row)] == q.containers[LeftSlot(row)]
    requires p.containers[RightSlot(row)] == q.containers[RightSlot(row)]
    ensures ShowsRow(q, row, v, isAm)
  {
  }

  /** `display_time`: pick the AM/PM background, then redraw the hour row
      and the minute row as the tick's `units_changed` selects them. */
  function DisplayTime(f: Face, e: TickEvent, is24h: bool): (g: Face)
    requires WellFormed(f.pool)
    ensures WellFormed(g.pool)
    ensures g.background == White <==> e.time.hour < 11
    ensures e.unitsChanged == 0 ==> g.pool == f.pool
    ensures e.unitsChanged != 0 ==>
              && ShowsRow(g.pool, 0, DisplayHour(ToUShort(e.time.hour), is24h) % 100, IsAm(e.time.hour))
              && ShowsRow(g.pool, 1, ToUShort(e.time.minute) % 100, IsAm(e.time.hour))
    ensures Valid(f.pool) ==> Valid(g.pool)
  {
    var isAm := IsAm(e.time.hour);
    var background := if isAm then White else Black;
    var p1 := if RowSelected(e.unitsChanged, HOUR_UNIT)
              then DisplayValue(f.pool, DisplayHour(ToUShort(e.time.hour), is24h), 0, isAm)
              else f.pool;
    var p2 := if RowSelected(e.unitsChanged, MINUTE_UNIT)
              then DisplayValue(p1, ToUShort(e.time.minute), 1, isAm)
              else p1;
    if e.unitsChanged != 0 then
      ShowsRowFrame(p1, p2, 0, DisplayHour(ToUShort(e.time.hour), is24h) % 100, isAm);
      Face(p2, background)
    else
      Face(p2, background)
  }

  /** Because the row test is a logical and of two nonzero-or-zero integers,
      each row is redrawn exactly when anything changed at all. */
  lemma RowsRedrawnIffUnitsChanged(units: int)
    ensures RowSelected(units, HOUR_UNIT) <==> units != 0
    ensures RowSelected(units, MINUTE_UNIT) <==> units != 0
  {
  }

  /** A minute-only tick does not carry the hour flag, yet `display_time`
      still redraws the hour row with the tick's hour. */
  lemma MinuteOnlyTickRedrawsHourRow(f: Face, t: Time, is24h: bool)
    requires WellFormed(f.pool)
    ensures (MINUTE_UNIT as bv8) & (HOUR_UNIT as bv8) == 0
    ensures ShowsRow(DisplayTime(f, TickEvent(t, MINUTE_UNIT), is24h).pool, 0,
                     DisplayHour(ToUShort(t.hour), is24h) % 100, IsAm(t.hour))
  {
  }

  /** The boundary of the AM test: a tick at 10 o'clock gets the white
      background and inverted digits, one at 11 o'clock the black background
      and plain digits. */
  lemma AmBoundary(f: Face, minute: int, units: int, is24h: bool)
    requires WellFormed(f.pool) && units != 0
    ensures var g := DisplayTime(f, TickEvent(Time(10, minute), units), is24h);
            g.background == White && g.pool.containers[LeftSlot(0)].mode == AssignInverted
    ensures var g := DisplayTime(f, TickEvent(Time(11, minute), units), is24h);
            g.background == Black && g.pool.containers[LeftSlot(0)].mode == Assign
  {
  }

  /** Displaying the same value in the same row twice in a row leaves a
      valid pool as the first display left it. */
  lemma DisplayValueIdempotent(p: Pool, value: UShort, row: UShort, isAm: bool)
    requires Valid(p) && row <= 1
    ensures DisplayValue(DisplayValue(p, value, row, isAm), value, row, isAm)
            == DisplayValue(p, value, row, isAm)
  {
    var q := DisplayValue(p, value, row, isAm);
    var q' := DisplayValue(q, value, row, isAm);
    forall i | InSlotRange(i)
      ensures q'.state[i] == q.state[i] && q'.containers[i] == q.containers[i]
    {
      assert Owns(q, i) && Owns(q', i);
    }
    ValidDeterminedByCells(q', q);
  }

  /** Two valid pools that show the same hour and minute values in the same
      style are the same pool. */
  lemma ShowingDeterminesPool(p: Pool, q: Pool, h: int, m: int, isAm: bool)
    requires Valid(p) && Valid(q) && 0 <= h < 100 && 0 <= m < 100
    requires ShowsRow(p, 0, h, isAm) && ShowsRow(q, 0, h, isAm)
    requires ShowsRow(p, 1, m, isAm) && ShowsRow(q, 1, m, isAm)
    ensures p == q
  {
    ShowsRowDigits(p, 0, h, isAm);
    ShowsRowDigits(q, 0, h, isAm);
    ShowsRowDigits(p, 1, m, isAm);
    ShowsRowDigits(q, 1, m, isAm);
    forall i | InSlotRange(i)
      ensures p.state[i] == q.state[i] && p.containers[i] == q.containers[i]
    {
      assert Owns(p, i) && Owns(q, i);
    }
    ValidDeterminedByCells(p, q);
  }

  /** A tick that changed anything redraws every slot, so on a valid pool
      its outcome does not depend on what was on screen before. */
  lemma FullRedrawForgetsScreen(f1: Face, f2: Face, e: TickEvent, is24h: bool)
    requires Valid(f1.pool) && Valid(f2.pool) && e.unitsChanged != 0
    ensures DisplayTime(f1, e, is24h) == DisplayTime(f2, e, is24h)
  {
    var h := DisplayHour(ToUShort(e.time.hour), is24h) % 100;
    var m := ToUShort(e.time.minute) % 100;
    ShowingDeterminesPool(DisplayTime(f1, e, is24h).pool, DisplayTime(f2, e, is24h).pool,
                          h, m, IsAm(e.time.hour));
  }

  /** Redrawing the same tick twice leaves a valid face as the first redraw
      left it: every slot is reloaded, but nothing visible changes. */
  lemma DisplayTimeIdempotent(f: Face, e: TickEvent, is24h: bool)
    requires Valid(f.pool)
    ensures DisplayTime(DisplayTime(f, e, is24h), e, is24h) == DisplayTime(f, e, is24h)
  {
    if e.unitsChanged != 0 {
      FullRedrawForgetsScreen(DisplayTime(f, e, is24h), f, e, is24h);
    }
  }

  /** For a well-formed clock time, a tick shows the minute and shows the
      hour as the 12- or 24-hour clock calls for. */
  lemma ShowsClockTime(f: Face, e: TickEvent, is24h: bool)
    requires WellFormed(f.pool)
    requires 0 <= e.time.hour < 24 && 0 <= e.time.minute < 60
    requires e.unitsChanged != 0
    ensures var g := DisplayTime(f, e, is24h);
            && RowValue(g.pool, 1) == e.time.minute
            && (is24h ==> RowValue(g.pool, 0) == e.time.hour)
            && (!is24h ==> 1 <= RowValue(g.pool, 0) <= 12
                           && RowValue(g.pool, 0) % 12 == e.time.hour % 12)
  {
    var h := ToUShort(e.time.hour);
    var m := ToUShort(e.time.minute);
    assert h == e.time.hour && m == e.time.minute;
    TwoDigits(m);
    TwoDigits(DisplayHour(h, is24h));
  }

  /** 9:05 on a 12-hour clock with both units changed: a lone 9 in the hour
      row, 0 and 5 in the minute row, on the white AM background. */
  lemma NineOhFive(f: Face)
    requires WellFormed(f.pool)
    ensures var g := DisplayTime(f, TickEvent(Time(9, 5), HOUR_UNIT + MINUTE_UNIT), false);
            && g.pool.state == [9, EMPTY_SLOT, 0, 5]
            && g.background == White
  {
    assert ToUShort(9) == 9 && ToUShort(5) == 5;
    assert DisplayHour(9, false) == 9;
    TwoDigits(9);
    TwoDigits(5);
    var g := DisplayTime(f, TickEvent(Time(9, 5), HOUR_UNIT + MINUTE_UNIT), false);
    ShowsRowDigits(g.pool, 0, 9, true);
    ShowsRowDigits(g.pool, 1, 5, true);
    assert g.pool.state[0] == 9 && g.pool.state[1] == EMPTY_SLOT;
    assert g.pool.state[2] == 0 && g.pool.state[3] == 5;
    assert g.pool.state == [9, EMPTY_SLOT, 0, 5];
  }
}
