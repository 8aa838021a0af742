# Big Time Plus watch face — Dafny model

Big Time Plus is a Pebble watch face. It shows the hour in the top half of
the screen and the minute in the bottom half, one 72 x 84 digit image per
quarter. The watch has memory for only a few of the ten digit bitmaps. So
the face keeps a fixed pool of four image slots, laid out

    0 1
    2 3

It unloads a slot's image before loading a new one. This project models the
face's logic as pure Dafny functions over immutable values. It proves what
each step does to the slot table and to the bitmap containers the slots own.

- `slot_pool.dfy`, module `SlotPool`: the `image_slot_state` table and the
  slots' bitmap containers; `unload_digit_image_from_slot` (`Unload`) and
  `load_digit_image_into_slot` (`Load`); the pool invariant `Valid`.
- `time_render.dfy`, module `TimeRender`: `get_display_hour`
  (`DisplayHour`), the AM test, `display_value` (`DisplayValue`) and
  `display_time` (`DisplayTime`).
- `watch_face.dfy`, module `WatchFace`: `handle_init`, a run of minute
  ticks, `handle_deinit` (a loop over the four slots) and a whole lifetime
  from start-up to shutdown.

How the model represents the program:

- A `Pool` holds three things. `state` is the table: each cell is
  `EMPTY_SLOT` (-1) or a digit. `containers` records each slot's bitmap
  container: `Released`, or `Live` with its glyph, its compositing mode and
  its frame origin. `live` counts the containers that have been initialised
  and not yet released. It is an ordinary field, not a ghost one. `Load`
  adds one to it and `Unload` of an occupied slot takes one away. `Valid`
  says that every cell is empty or a digit, that each occupied cell owns
  exactly one live container holding its digit, and that `live` equals the
  number of occupied cells.
- The SDK calls that set up a container (`bmp_init_container`, setting the
  compositing mode, setting the frame origin, `layer_add_child`) become one
  `Live` value. Removing the layer and `bmp_deinit_container` become
  `Released`. The window's background colour is the `background` field of
  a `Face`.
- C's `unsigned short` is the subset type `UShort`. An `int` passed as an
  `unsigned short` is reduced modulo 2^16 by `ToUShort`.
- The 12/24-hour setting (`clock_is_24h_style()`) and the tick's time are
  parameters.

Behaviour kept exactly as the code has it:

- AM is `tm_hour < 11` (line 157), so 11:xx in the morning gets the PM
  look. AM digits are drawn with `GCompOpAssignInverted` on a white
  background, and PM digits with `GCompOpAssign` on black, as the header
  comment (line 5) describes: a white face for AM, an inverted black face
  for PM.
- The row tests are `units_changed && HOUR_UNIT` and
  `units_changed && MINUTE_UNIT` (lines 166 and 170). These use the logical
  and, not the bitwise one. Because both flags are nonzero, a tick redraws
  both rows whenever `units_changed` is nonzero. The header comment (line 4)
  promises that only the changed part of the screen is updated; the `&&`
  means the code redraws both rows, so a minute-only tick also redraws the
  hour row (`MinuteOnlyTickRedrawsHourRow`). The model follows the code.
- For an hour below 10, the right-hand hour slot is unloaded twice
  (lines 132 and 136). The second unload finds the slot empty and does
  nothing.

## Model

| member | source | states |
|---|---|---|
| `SlotPool.InitialPool` | big_time_plus/big_time_plus.c:55 | the table starts with all four cells empty, no container live, and the pool invariant holding |
| `SlotPool.Origin` | big_time_plus/big_time_plus.c:103-104 | each slot's image lies inside the 144 x 168 screen |
| `SlotPool.OriginIsGridFormula` | big_time_plus/big_time_plus.c:103-104 | a slot's origin is ((slot % 2) * 72, (slot / 2) * 84) |
| `SlotPool.OriginsDistinct` | big_time_plus/big_time_plus.c:29-32 | no two slots share a quadrant |
| `SlotPool.Unload` | big_time_plus/big_time_plus.c:57-73 | afterwards the cell is empty and the other three cells and containers are unchanged; on an empty cell nothing changes at all; on an occupied cell its container is released and the live count drops by exactly one; the pool invariant is kept |
| `SlotPool.Load` | big_time_plus/big_time_plus.c:75-106 | a slot outside 0..3, a digit outside 0..9 or an occupied slot leaves the whole pool unchanged; otherwise the cell holds the digit, its container is live with that glyph, the AM/PM compositing mode and the slot's origin, the live count rises by exactly one, and no other slot changes; the pool invariant is kept, so every cell stays in {-1} plus 0..9 |
| `SlotPool.UnloadIdempotent` | big_time_plus/big_time_plus.c:63-71 | unloading a slot a second time changes nothing |
| `SlotPool.NoDoubleAcquire` | big_time_plus/big_time_plus.c:95-97 | a load into a slot that was just filled is a no-op, so no second container is acquired |
| `SlotPool.UnloadAfterLoad` | big_time_plus/big_time_plus.c:57-106 | on a valid pool, unloading the slot just loaded gives back the original pool, live count included |
| `SlotPool.LiveBounded` | big_time_plus/big_time_plus.c:20-33 | a valid pool never has more than 4 live containers |
| `TimeRender.ToUShort` | big_time_plus/big_time_plus.c:166-172 | an int passed as an unsigned short becomes the value in 0..65535 that differs from it by a multiple of 65536; an int already in 0..65535 keeps its value |
| `TimeRender.DisplayHour` | big_time_plus/big_time_plus.c:141-152 | in 24-hour mode the hour is returned unchanged; in 12-hour mode the result lies in 1..12 and is congruent to the hour modulo 12 (so 0 becomes 12) |
| `TimeRender.DisplayHourExamples` | big_time_plus/big_time_plus.c:141-152 | hour 0 shows as 12 and hour 13 as 1 on a 12-hour clock; hour 13 shows as 13 on a 24-hour clock |
| `TimeRender.DisplayValue` | big_time_plus/big_time_plus.c:109-138 | with v = value % 100, the hour row shows v below 10 as a lone left digit with the right slot empty, and any other row value as tens in the left slot and units in the right; the row reads back as v, every digit's container has the AM/PM style, the other row's slots are unchanged, and the pool invariant is kept |
| `TimeRender.ShowsRowDigits` | big_time_plus/big_time_plus.c:120-137 | a row can show a value 0..99 in only one way: a lone digit for an hour below 10, otherwise its tens and units digits |
| `TimeRender.DisplayValueIdempotent` | big_time_plus/big_time_plus.c:122-137 | showing the same value in the same row twice leaves a valid pool as one showing left it |
| `TimeRender.DisplayTime` | big_time_plus/big_time_plus.c:155-173 | the background is white iff tm_hour < 11; with units_changed zero the pool is untouched; otherwise the hour row shows the display hour mod 100 and the minute row the minute mod 100, both in the AM/PM style; the pool invariant is kept |
| `TimeRender.RowsRedrawnIffUnitsChanged` | big_time_plus/big_time_plus.c:166-172 | each row test holds iff units_changed is nonzero |
| `TimeRender.IsAm` | big_time_plus/big_time_plus.c:157 | the AM test: hours below 11 count as AM |
| `TimeRender.RowSelected` | big_time_plus/big_time_plus.c:166-172 | a row test `units_changed && UNIT`: true when both integers are nonzero |
| `TimeRender.MinuteOnlyTickRedrawsHourRow` | big_time_plus/big_time_plus.c:166-168 | the minute flag and the hour flag share no bit, yet a tick flagged with the minute only leaves the hour row showing the tick's display hour mod 100 in the AM/PM style |
| `TimeRender.AmBoundary` | big_time_plus/big_time_plus.c:157-164 | a tick at 10 o'clock gives a white background and inverted hour digits; one at 11 o'clock gives a black background and plain digits |
| `TimeRender.ShowingDeterminesPool` | big_time_plus/big_time_plus.c:109-138 | two valid pools that show the same hour and minute values in the same style are equal |
| `TimeRender.FullRedrawForgetsScreen` | big_time_plus/big_time_plus.c:155-173 | when units_changed is nonzero, the result on a valid pool does not depend on what was shown before |
| `TimeRender.DisplayTimeIdempotent` | big_time_plus/big_time_plus.c:155-173 | handling the same tick twice leaves a valid face as handling it once did |
| `TimeRender.ShowsClockTime` | big_time_plus/big_time_plus.c:141-173 | for hours 0..23 and minutes 0..59, the minute row reads as the minute; the hour row reads as the hour in 24-hour mode, and otherwise as a value in 1..12 congruent to the hour modulo 12 |
| `TimeRender.NineOhFive` | big_time_plus/big_time_plus.c:155-173 | 9:05 on a 12-hour clock gives cells [9, empty, 0, 5] on a white background |
| `WatchFace.HandleInit` | big_time_plus/big_time_plus.c:182-196 | start-up leaves a valid pool; the hour row shows the display hour mod 100 (a lone digit below 10) and the minute row the minute mod 100, both in the AM/PM style, on the matching background; every slot except the right-hand hour slot holds a digit, so the screen is not blank |
| `WatchFace.Run` | big_time_plus/big_time_plus.c:176-179 | after a run of ticks the background follows the last tick's hour, and when the last tick changed anything both rows show that tick's time in its AM/PM style |
| `WatchFace.RunPreservesValid` | big_time_plus/big_time_plus.c:176-179 | any sequence of minute ticks keeps the pool invariant |
| `WatchFace.LiveNeverExceedsSlots` | big_time_plus/big_time_plus.c:208-220 | from start-up through any ticks, at most 4 containers are live |
| `WatchFace.HandleDeinit` | big_time_plus/big_time_plus.c:199-205 | every cell ends empty and the live count drops by the number of occupied cells; on a valid pool every container is released and none stays live |
| `WatchFace.Lifetime` | big_time_plus/big_time_plus.c:182-205 | after start-up, any ticks and shutdown, every slot is empty, every container is released and the live count is 0 |

## Left out

- Pebble SDK side effects are not modelled as calls. A slot's container
  state stands for `bmp_init_container`, `bmp_deinit_container`,
  `layer_add_child`, `layer_remove_from_parent` and
  `bitmap_layer_set_compositing_mode`. `window_set_background_color` is
  the `background` field. `layer_mark_dirty` only asks for a repaint, so it
  is left out.
- A failure of `bmp_init_container` is not modelled. The code does not
  check for one.
- `IMAGE_RESOURCE_IDS` (lines 40-45) is taken as the identity from a digit
  to its glyph. A container records the digit it displays.
- `clock_is_24h_style()` is a boolean parameter. The tick's time is a
  parameter too. `handle_init` reads the time through an uninitialised
  pointer (lines 191-194); this is host plumbing, and the model takes the
  time as given.
- `PBL_APP_INFO`, `pbl_main`'s event loop, `window_init`,
  `window_stack_push` and `resource_init_current_app` are registration and
  lifecycle glue. They are not modelled. A run of ticks is a sequence
  passed to `Run`.
- `MINUTE_UNIT` and `HOUR_UNIT` are taken to be 2 and 4, the Pebble SDK's
  flag values. The SDK header is not part of this model.
  Only the fact that the flags are nonzero and distinct affects the results.
