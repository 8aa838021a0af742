/** The watch face's life: start-up draws the current time on an empty
    pool, every minute tick redraws it, and shutdown empties every slot.
 */
module WatchFace {
  import opened SlotPool
  import opened TimeRender

  /** The units flagged by the synthetic tick drawn at start-up. */
  const INIT_UNITS: int := ((HOUR_UNIT as bv8) | (MINUTE_UNIT as bv8)) as int

  /** One minute-tick delivery: the event and the clock style in force. */
  datatype Tick = Tick(event: TickEvent, is24h: bool)

  /** `handle_init`: black window, then the time drawn once with both the
      hour and minute flags set, so the screen is never blank. The time the
      host supplies is a parameter. */
  function HandleInit(t: Time, is24h: bool): (f: Face)
    ensures Valid(f.pool)
    ensures f.background == White <==> t.hour < 11
    ensures ShowsRow(f.pool, 0, DisplayHour(ToUShort(t.hour), is24h) % 100, IsAm(t.hour))
    ensures ShowsRow(f.pool, 1, ToUShort(t.minute) % 100, IsAm(t.hour))
    ensures forall i :: InSlotRange(i) && i != 1 ==> f.pool.state[i] != EMPTY_SLOT
  {
    DisplayTime(Face(InitialPool(), Black), TickEvent(t, INIT_UNITS), is24h)
  }

  /** `handle_minute_tick` applied to each tick in turn. The background
      follows the last tick, and when the last tick changed anything the
      screen shows that tick's time. */
  function Run(f: Face, ticks: seq<Tick>): (g: Face)
    requires WellFormed(f.pool)
    ensures WellFormed(g.pool)
    ensures |ticks| == 0 ==> g == f
    ensures |ticks| > 0 ==>
              var last := ticks[|ticks| - 1];
              && (g.background == White <==> last.event.time.hour < 11)
              && (last.event.unitsChanged != 0 ==>
                    && ShowsRow(g.pool, 0, DisplayHour(ToUShort(last.event.time.hour), last.is24h) % 100,
                                IsAm(last.event.time.hour))
                    && ShowsRow(g.pool, 1, ToUShort(last.event.time.minute) % 100,
                                IsAm(last.event.time.hour)))
    decreases |ticks|
  {
    if |ticks| == 0 then f
    else Run(DisplayTime(f, ticks[0].event, ticks[0].is24h), ticks[1..])
  }

  /** Any sequence of ticks keeps the pool invariant. */
  lemma {:induction false} RunPreservesValid(f: Face, ticks: seq<Tick>)
    requires Valid(f.pool)
    ensures Valid(Run(f, ticks).pool)
    decreases |ticks|
  {
    if |ticks| > 0 {
      RunPreservesValid(DisplayTime(f, ticks[0].event, ticks[0].is24h), ticks[1..]);
    }
  }

  /** From start-up through any ticks, no more containers are live than
      there are slots. */
  lemma LiveNeverExceedsSlots(t: Time, is24h: bool, ticks: seq<Tick>)
    ensures 0 <= Run(HandleInit(t, is24h), ticks).pool.live <= TOTAL_IMAGE_SLOTS
  {
    var f := HandleInit(t, is24h);
    RunPreservesValid(f, ticks);
    LiveBounded(Run(f, ticks).pool);
  }

  /** `handle_deinit`: unload every slot in turn. Each occupied slot releases
      its container, so a valid pool ends with nothing live. */
  method HandleDeinit(p: Pool) returns (q: Pool)
    requires WellFormed(p)
    ensures WellFormed(q)
    ensures forall i :: InSlotRange(i) ==> q.state[i] == EMPTY_SLOT
    ensures q.live == p.live - Occupied(p.state)
    ensures Valid(p) ==> Valid(q) && q.live == 0
    ensures Valid(p) ==> forall i :: InSlotRange(i) ==> q.containers[i] == Released
  {
    q := p;
    var i := 0;
    while i < TOTAL_IMAGE_SLOTS
      invariant 0 <= i <= TOTAL_IMAGE_SLOTS
      invariant WellFormed(q)
      invariant forall j :: 0 <= j < i ==> q.state[j] == EMPTY_SLOT
      invariant q.live - Occupied(q.state) == p.live - Occupied(p.state)
      invariant Valid(p) ==> Valid(q)
    {
      OccupiedUpdate(q.state, i, EMPTY_SLOT);
      q := Unload(q, i);
      i := i + 1;
    }
    OccupiedAllEmpty(q.state);
    if Valid(p) {
      forall i | InSlotRange(i)
        ensures q.containers[i] == Released
      {
        assert Owns(q, i);
      }
    }
  }

  /** Start-up, any ticks, shutdown: every container acquired along the way
      has been released and every slot is empty. */
  method Lifetime(t: Time, is24h: bool, ticks: seq<Tick>) returns (final: Pool)
    ensures WellFormed(final)
    ensures forall i :: InSlotRange(i) ==>
              final.state[i] == EMPTY_SLOT && final.containers[i] == Released
    ensures final.live == 0
  {
    var f := HandleInit(t, is24h);
    RunPreservesValid(f, ticks);
    final := HandleDeinit(Run(f, ticks).pool);
  }
}
