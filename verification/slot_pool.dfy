/** The four-slot digit image pool of the Big Time Plus watch face.

    There is only enough memory for a few of the ten digit bitmaps, so the
    face keeps one "slot" per on-screen digit position (laid out 0 1 / 2 3)
    and swaps images in and out of it. `state` is the `image_slot_state`
    table: each cell is EMPTY_SLOT or the digit shown there. `containers`
    stands for `image_containers`: the bitmap container a slot owns, with the
    compositing mode and frame origin it was given when loaded. `live`
    counts containers initialised and not yet released: every load acquires
    one, every unload of an occupied cell releases one.
 */
module SlotPool {

  const TOTAL_IMAGE_SLOTS: int := 4
  const NUMBER_OF_IMAGES: int := 10
  const EMPTY_SLOT: int := -1

  /** Each digit image is a quarter of the 144 x 168 screen. */
  const CELL_WIDTH: int := 72
  const CELL_HEIGHT: int := 84

  /** The two bitmap compositing modes the face uses. */
  datatype CompOp = Assign | AssignInverted

  datatype Point = Point(x: int, y: int)

  /** A slot's bitmap container: released, or holding the image of `glyph`
      attached to the window at `origin` with compositing mode `mode`. */
  datatype Container = Released | Live(glyph: int, mode: CompOp, origin: Point)

  datatype Pool = Pool(state: seq<int>, containers: seq<Container>, live: int)

  predicate WellFormed(p: Pool) {
    |p.state| == TOTAL_IMAGE_SLOTS && |p.containers| == TOTAL_IMAGE_SLOTS
  }

  predicate InSlotRange(slot: int) {
    0 <= slot < TOTAL_IMAGE_SLOTS
  }

  /** A value that names one of the ten digit images. */
  predicate IsDigit(d: int) {
    0 <= d < NUMBER_OF_IMAGES
  }

  /** A cell of the table is either empty or a digit. */
  predicate CellOk(c: int) {
    c == EMPTY_SLOT || IsDigit(c)
  }

  /** The compositing mode a digit gets: AM digits are drawn inverted. */
  function ModeFor(isAm: bool): CompOp {
    if isAm then AssignInverted else Assign
  }

  /** Top-left corner of a slot's image: column slot % 2, row slot / 2. */
  function Origin(slot: int): (o: Point)
    requires InSlotRange(slot)
    ensures 0 <= o.x && o.x + CELL_WIDTH <= 2 * CELL_WIDTH
    ensures 0 <= o.y && o.y + CELL_HEIGHT <= 2 * CELL_HEIGHT
  {
    Point(if slot == 1 || slot == 3 then CELL_WIDTH else 0, if slot >= 2 then CELL_HEIGHT else 0)
  }

  /** The quadrant table agrees with the source's formula: x is
      (slot % 2) * 72 and y is (slot / 2) * 84. */
  lemma OriginIsGridFormula(slot: int)
    requires InSlotRange(slot)
    ensures Origin(slot) == Point((slot % 2) * CELL_WIDTH, (slot / 2) * CELL_HEIGHT)
  {
    assert slot == 0 || slot == 1 || slot == 2 || slot == 3;
  }

  /** No two slots share a quadrant. */
  lemma OriginsDistinct(a: int, b: int)
    requires InSlotRange(a) && InSlotRange(b) && a != b
    ensures Origin(a) != Origin(b)
  {
  }

  /** 1 if a cell holds a digit, 0 if it is empty. */
  function Held(c: int): nat {
    if c != EMPTY_SLOT then 1 else 0
  }

  /** Number of occupied cells of a table. */
  function Occupied(s: seq<int>): nat {
    if |s| == 0 then 0 else Held(s[0]) + Occupied(s[1..])
  }

  /** Slot `slot` owns exactly the container its cell calls for: none when
      empty, one holding the cell's digit at the slot's origin otherwise. */
  predicate Owns(p: Pool, slot: int)
    requires WellFormed(p) && InSlotRange(slot)
  {
    if p.state[slot] == EMPTY_SLOT then p.containers[slot] == Released
    else p.containers[slot].Live?
         && p.containers[slot].glyph == p.state[slot]
         && p.containers[slot].origin == Origin(slot)
  }

  /** The pool invariant: every cell is empty or a digit, each occupied
      cell owns one live container, and the live count equals the number
      of occupied cells. */
  predicate Valid(p: Pool) {
    && WellFormed(p)
    && (forall i :: 0 <= i < TOTAL_IMAGE_SLOTS ==> CellOk(p.state[i]))
    && (forall i :: 0 <= i < TOTAL_IMAGE_SLOTS ==> Owns(p, i))
    && p.live == Occupied(p.state)
  }

  /** The table as statically initialised: four empty cells, nothing live. */
  function InitialPool(): (p: Pool)
    ensures Valid(p)
    ensures forall i :: InSlotRange(i) ==> p.state[i] == EMPTY_SLOT
  {
    var empty := [EMPTY_SLOT, EMPTY_SLOT, EMPTY_SLOT, EMPTY_SLOT];
    OccupiedAllEmpty(empty);
    Pool(empty, [Released, Released, Released, Released], 0)
  }

  lemma {:induction false} OccupiedBound(s: seq<int>)
    ensures Occupied(s) <= |s|
  {
    if |s| > 0 {
      OccupiedBound(s[1..]);
    }
  }

  /** Overwriting one cell changes the occupied count by exactly the change
      in that cell's occupancy. */
  lemma {:induction false} OccupiedUpdate(s: seq<int>, i: int, c: int)
    requires 0 <= i < |s|
    ensures Occupied(s[i := c]) == Occupied(s) - Held(s[i]) + Held(c)
  {
    if i == 0 {
      assert s[i := c][1..] == s[1..];
    } else {
      assert s[i := c][1..] == s[1..][i - 1 := c];
      OccupiedUpdate(s[1..], i - 1, c);
    }
  }

  /** A table whose cells are all empty has no occupied cell. */
  lemma {:induction false} OccupiedAllEmpty(s: seq<int>)
    requires forall i :: 0 <= i < |s| ==> s[i] == EMPTY_SLOT
    ensures Occupied(s) == 0
  {
    if |s| > 0 {
      OccupiedAllEmpty(s[1..]);
    }
  }

  /** A valid pool never holds more live containers than it has slots. */
  lemma LiveBounded(p: Pool)
    requires Valid(p)
    ensures 0 <= p.live <= TOTAL_IMAGE_SLOTS
  {
    OccupiedBound(p.state);
  }

  /** In a valid pool the cells alone fix the live count. */
  lemma ValidDeterminedByCells(p: Pool, q: Pool)
    requires Valid(p) && Valid(q)
    requires forall i :: InSlotRange(i) ==> p.state[i] == q.state[i] && p.containers[i] == q.containers[i]
    ensures p == q
  {
    assert p.state == q.state;
    assert p.containers == q.containers;
  }

  /** Changing one slot of a valid pool keeps it valid when the new cell is
      well formed, owns its container and the count follows the table. */
  lemma ValidAfterSlotChange(p: Pool, q: Pool, slot: int)
    requires Valid(p) && WellFormed(q) && InSlotRange(slot)
    requires forall j :: InSlotRange(j) && j != slot ==>
               q.state[j] == p.state[j] && q.containers[j] == p.containers[j]
    requires CellOk(q.state[slot]) && Owns(q, slot)
    requires q.live == Occupied(q.state)
    ensures Valid(q)
  {
    forall j | 0 <= j < TOTAL_IMAGE_SLOTS
      ensures CellOk(q.state[j]) && Owns(q, j)
    {
      if j != slot {
        assert Owns(p, j);
      }
    }
  }

  /** `unload_digit_image_from_slot`: detach and release the slot's image if
      it has one and mark the cell empty; an empty cell is left alone. The
      source indexes the table without a range check, so the slot must be in
      range. */
  function Unload(p: Pool, slot: int): (q: Pool)
    requires WellFormed(p) && InSlotRange(slot)
    ensures WellFormed(q)
    ensures q.state[slot] == EMPTY_SLOT
    ensures forall j :: InSlotRange(j) && j != slot ==>
              q.state[j] == p.state[j] && q.containers[j] == p.containers[j]
    ensures p.state[slot] == EMPTY_SLOT ==> q == p
    ensures p.state[slot] != EMPTY_SLOT ==>
              q.containers[slot] == Released && q.live == p.live - 1
    ensures Valid(p) ==> Valid(q)
  {
    if p.state[slot] != EMPTY_SLOT then
      OccupiedUpdate(p.state, slot, EMPTY_SLOT);
      var q := Pool(p.state[slot := EMPTY_SLOT], p.containers[slot := Released], p.live - 1);
      if Valid(p) then ValidAfterSlotChange(p, q, slot); q else q
    else
      p
  }

  /** `load_digit_image_into_slot`: silently does nothing for a slot out of
      range, a value that is not a digit, or an occupied slot; otherwise
      records the digit and acquires one container holding its image, placed
      at the slot's quadrant with the AM/PM compositing mode. */
  function Load(p: Pool, slot: int, digit: int, isAm: bool): (q: Pool)
    requires WellFormed(p)
    ensures WellFormed(q)
    ensures !InSlotRange(slot) || !IsDigit(digit) || p.state[slot] != EMPTY_SLOT ==> q == p
    ensures InSlotRange(slot) && IsDigit(digit) && p.state[slot] == EMPTY_SLOT ==>
              && q.state[slot] == digit
              && q.containers[slot] == Live(digit, ModeFor(isAm), Origin(slot))
              && q.live == p.live + 1
    ensures forall j :: InSlotRange(j) && j != slot ==>
              q.state[j] == p.state[j] && q.containers[j] == p.containers[j]
    ensures Valid(p) ==> Valid(q)
  {
    if !InSlotRange(slot) then p
    else if !IsDigit(digit) then p
    else if p.state[slot] != EMPTY_SLOT then p
    else
      OccupiedUpdate(p.state, slot, digit);
      var q := Pool(p.state[slot := digit],
                    p.containers[slot := Live(digit, ModeFor(isAm), Origin(slot))],
                    p.live + 1);
      if Valid(p) then ValidAfterSlotChange(p, q, slot); q else q
  }

  /** Unloading an empty slot, or unloading twice, changes nothing. */
  lemma UnloadIdempotent(p: Pool, slot: int)
    requires WellFormed(p) && InSlotRange(slot)
    ensures Unload(Unload(p, slot), slot) == Unload(p, slot)
  {
  }

  /** A second load into the slot just filled is a no-op: no container is
      acquired twice. */
  lemma NoDoubleAcquire(p: Pool, slot: int, d: int, e: int, isAm: bool, isAm': bool)
    requires WellFormed(p) && InSlotRange(slot) && IsDigit(d)
    requires p.state[slot] == EMPTY_SLOT
    ensures Load(Load(p, slot, d, isAm), slot, e, isAm') == Load(p, slot, d, isAm)
  {
  }

  /** Unload undoes a successful load on a valid pool. */
  lemma UnloadAfterLoad(p: Pool, slot: int, d: int, isAm: bool)
    requires Valid(p) && InSlotRange(slot) && IsDigit(d)
    requires p.state[slot] == EMPTY_SLOT
    ensures Unload(Load(p, slot, d, isAm), slot) == p
  {
    var q := Unload(Load(p, slot, d, isAm), slot);
    assert Owns(p, slot);
    ValidDeterminedByCells(q, p);
  }
}
