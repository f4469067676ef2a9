/**
 * The schedule grid and the staff rescheduling request (convention/views/games.py).
 *
 * The grid places every game on one continuous hour axis that runs from
 * Friday to Sunday: a block's day gives an hour offset, its slot the hour of
 * that day, and a slot's width is its length, wrapping past midnight. The
 * grid payload refers to locations, blocks and slots by their position in
 * the lists it sends. A staff member reschedules a game by posting the ids
 * of its new location, block and slot; the game is overwritten, stamped, and
 * a revision comment names the fields that changed.
 */
module GameViews {
  import opened Wrappers
  import opened Text
  import opened Models

  // ---------------------------------------------------------------------
  // Block offsets

  /** The `offsets` table: the hour at which each known day starts. */
  const Offsets: map<string, int> := map["friday" := -18, "saturday" := 6, "sunday" := 30]

  /** The offset of a block whose first word names no known day. */
  const UnknownDay: int := 100

  /** The offset of a day name, spelled out case by case. */
  function DayOffset(day: string): int
  {
    var d := LowerStr(day);
    if d == "friday" then -18
    else if d == "saturday" then 6
    else if d == "sunday" then 30
    else UnknownDay
  }

  /** A text whose second word is "midnight" in any case. */
  predicate MidnightBlock(text: string)
  {
    var words := Words(text);
    |words| >= 2 && LowerStr(words[1]) == "midnight"
  }

  /**
   * get_block_offset: the day offset of the first word, 24 hours later for a
   * "<day> midnight" block. A blank text has no first word and raises.
   */
  function BlockOffset(b: TimeBlock): (r: Result<int>)
    ensures r.Err? <==> IsBlank(b.text)
    ensures r.Err? ==> r.error == IndexError
  {
    match FirstWord(b.text)
    case Err(e) => Err(e)
    case Ok(first) =>
      var offset := if LowerStr(first) in Offsets then Offsets[LowerStr(first)] else UnknownDay;
      if HasSecondWord(b.text) && "midnight" == LowerStr(SecondWord(b.text).value) then Ok(offset + 24)
      else Ok(offset)
  }

  /** The offset is the day's offset, plus a day exactly for midnight blocks. */
  lemma BlockOffsetByDay(b: TimeBlock)
    requires Named(b)
    ensures BlockOffset(b) == Ok(DayOffset(FirstWord(b.text).value) + if MidnightBlock(b.text) then 24 else 0)
    ensures DayOffset(FirstWord(b.text).value) in {-18, 6, 30, UnknownDay}
  {
    var d := LowerStr(FirstWord(b.text).value);
    assert d in Offsets <==> d == "friday" || d == "saturday" || d == "sunday";
    assert (if d in Offsets then Offsets[d] else UnknownDay) == DayOffset(FirstWord(b.text).value);
  }

  /** The offset of a text built from a day word and further words. */
  lemma BlockOffsetOfWords(b: TimeBlock, day: string, rest: seq<string>)
    requires IsWord(day) && forall i :: 0 <= i < |rest| ==> IsWord(rest[i])
    requires b.text == Join(" ", [day] + rest)
    ensures BlockOffset(b) == Ok(DayOffset(day) + if |rest| >= 1 && LowerStr(rest[0]) == "midnight" then 24 else 0)
  {
    var midnight := |rest| >= 1 && LowerStr(rest[0]) == "midnight";
    JoinedWords(b.text, day, rest);
    assert MidnightBlock(b.text) <==> midnight;
    BlockOffsetByDay(b);
  }

  /** A text built from words splits back into them: the day first, then the rest. */
  lemma JoinedWords(text: string, day: string, rest: seq<string>)
    requires IsWord(day) && forall i :: 0 <= i < |rest| ==> IsWord(rest[i])
    requires text == Join(" ", [day] + rest)
    ensures !IsBlank(text) && FirstWord(text) == Ok(day)
    ensures |rest| >= 1 ==> SecondWord(text) == Ok(rest[0])
    ensures |rest| == 0 ==> !HasSecondWord(text)
  {
    var ws := [day] + rest;
    forall i | 0 <= i < |ws| ensures IsWord(ws[i]) {
      if i > 0 { assert ws[i] == rest[i - 1]; }
    }
    WordsOfJoin(ws);
    WordsEmptyIffBlank(text);
    if |rest| >= 1 { assert ws[1] == rest[0]; }
  }

  /** The examples of the view tests: a known day, with and without "midnight". */
  lemma BlockOffsetFriday(b: TimeBlock)
    requires b.text == "Friday Night"
    ensures BlockOffset(b) == Ok(-18)
  {
    assert Join(" ", ["Friday", "Night"]) == b.text;
    assert LowerStr("Friday") == "friday";
    assert LowerStr("Night")[0] != "midnight"[0];
    BlockOffsetOfWords(b, "Friday", ["Night"]);
  }

  lemma BlockOffsetFridayMidnight(b: TimeBlock)
    requires b.text == "Friday MidniGHT"
    ensures BlockOffset(b) == Ok(6)
  {
    assert Join(" ", ["Friday", "MidniGHT"]) == b.text;
    assert LowerStr("Friday") == "friday";
    assert LowerStr("MidniGHT") == "midnight";
    BlockOffsetOfWords(b, "Friday", ["MidniGHT"]);
  }

  lemma BlockOffsetSaturdayMidnight(b: TimeBlock)
    requires b.text == "Saturday midnight"
    ensures BlockOffset(b) == Ok(30)
  {
    assert Join(" ", ["Saturday", "midnight"]) == b.text;
    assert LowerStr("Saturday") == "saturday";
    assert LowerStr("midnight") == "midnight";
    BlockOffsetOfWords(b, "Saturday", ["midnight"]);
  }

  /** A first word that names no known day gives 100. */
  lemma BlockOffsetUnknown(b: TimeBlock)
    requires b.text == "Unknown"
    ensures BlockOffset(b) == Ok(100)
  {
    assert Join(" ", ["Unknown"]) == b.text;
    var d := LowerStr("Unknown");
    assert d[0] == 'u';
    assert d != "friday" && d != "saturday" && d != "sunday";
    BlockOffsetOfWords(b, "Unknown", []);
  }

  // ---------------------------------------------------------------------
  // Start and width on the grid

  /** The grid position of a game that has no block or no slot. */
  const Unplaced: real := 100.0

  /**
   * get_start: the block's offset plus the slot's start hour, or 100 for a
   * game missing either.
   */
  function Start(g: Game): (r: Result<real>)
    ensures g.timeBlock.None? || g.timeSlot.None? ==> r == Ok(Unplaced)
    ensures g.timeBlock.Some? && g.timeSlot.Some? ==>
              (r.Err? <==> IsBlank(g.timeBlock.value.text)) &&
              (r.Ok? ==> r.value - g.timeSlot.value.start == BlockOffset(g.timeBlock.value).value as real)
  {
    if g.timeBlock.Some? && g.timeSlot.Some? then
      match BlockOffset(g.timeBlock.value)
      case Err(e) => Err(e)
      case Ok(offset) => Ok(offset as real + g.timeSlot.value.start)
    else Ok(Unplaced)
  }

  /** The examples of the view tests: a placed game starts at its block's offset plus its slot's start. */
  lemma StartFridayNight(g: Game)
    requires g.timeBlock.Some? && g.timeBlock.value.text == "Friday Night"
    requires g.timeSlot.Some? && g.timeSlot.value.start == 18.0
    ensures Start(g) == Ok(0.0)
  {
    BlockOffsetFriday(g.timeBlock.value);
  }

  lemma StartSaturdayMidnight(g: Game)
    requires g.timeBlock.Some? && g.timeBlock.value.text == "Saturday midnight"
    requires g.timeSlot.Some? && g.timeSlot.value.start == 0.0
    ensures Start(g) == Ok(30.0)
  {
    BlockOffsetSaturdayMidnight(g.timeBlock.value);
  }

  lemma StartUnknownDay(g: Game)
    requires g.timeBlock.Some? && g.timeBlock.value.text == "Unknown"
    requires g.timeSlot.Some? && g.timeSlot.value.start == 20.0
    ensures Start(g) == Ok(120.0)
  {
    BlockOffsetUnknown(g.timeBlock.value);
  }

  /** A game without a block is put at 100. */
  lemma StartUnplaced(g: Game)
    requires g.timeBlock.None?
    ensures Start(g) == Ok(100.0)
  {
  }

  /**
   * get_width: the length of a slot in hours, 24 hours added when it ends
   * on the next day; 0 for no slot.
   */
  function Width(slot: Option<TimeSlot>): (r: real)
    ensures slot.None? ==> r == 0.0
    ensures slot.Some? ==> 0.0 <= r < 24.0
    ensures slot.Some? ==> slot.value.start + r == slot.value.stop ||
                           slot.value.start + r == slot.value.stop + 24.0
  {
    if slot.Some? then
      var width := slot.value.stop - slot.value.start;
      if width < 0.0 then width + 24.0 else width
    else 0.0
  }

  /** The width is the one length in [0, 24) that leads from start to stop. */
  lemma WidthUnique(slot: TimeSlot, w: real)
    requires 0.0 <= w < 24.0
    requires slot.start + w == slot.stop || slot.start + w == slot.stop + 24.0
    ensures Width(Some(slot)) == w
  {
  }

  /** The examples of the view tests. */
  lemma WidthExamples()
    ensures Width(Some(TimeSlot(0, 0.0, 10.0))) == 10.0
    ensures Width(Some(TimeSlot(0, 5.0, 4.0))) == 23.0
    ensures Width(Some(TimeSlot(0, 18.5, 23.75))) == 5.25
    ensures Width(Some(TimeSlot(0, 12.0, 12.0))) == 0.0
  {
  }

  // ---------------------------------------------------------------------
  // Positions in a list

  /** get_index: the position of the first occurrence of obj, or -1. */
  function GetIndex<T(==)>(obj: T, list: seq<T>): (i: int)
    ensures -1 <= i < |list|
    ensures i == -1 <==> obj !in list
    ensures 0 <= i ==> list[i] == obj && obj !in list[..i]
  {
    if list == [] then -1
    else if list[0] == obj then 0
    else
      var j := GetIndex(obj, list[1..]);
      if j == -1 then -1
      else
        assert list[..j + 1] == [list[0]] + list[1..][..j];
        j + 1
  }

  /** The examples of the view tests. */
  lemma GetIndexExamples()
    ensures GetIndex(1, [1, 2, 3]) == 0
    ensures GetIndex(3, [1, 2, 3]) == 2
    ensures GetIndex(4, [1, 2, 3]) == -1
  {
  }

  /** The position of a reference that may be None; None is in no list. */
  function RefIndex(ref: Option<nat>, ids: seq<nat>): (i: int)
    ensures -1 <= i < |ids|
    ensures i == -1 <==> ref.None? || ref.value !in ids
    ensures 0 <= i ==> ref == Some(ids[i])
  {
    if ref.None? then -1 else GetIndex(ref.value, ids)
  }

  /** The primary keys of stored rows, in stored order. */
  function Ids<T>(rows: seq<T>, key: T -> nat): (ids: seq<nat>)
    ensures |ids| == |rows| && forall i :: 0 <= i < |rows| ==> ids[i] == key(rows[i])
  {
    seq(|rows|, i requires 0 <= i < |rows| => key(rows[i]))
  }

  function LocationId(l: Location): nat { l.id }
  function BlockId(b: TimeBlock): nat { b.id }
  function SlotId(s: TimeSlot): nat { s.id }

  /** The id a game refers to in one of its three schedule fields; models compare by id. */
  datatype Field = LocationField | BlockField | SlotField

  function RefId(g: Game, f: Field): Option<nat>
  {
    match f
    case LocationField => if g.location.Some? then Some(g.location.value.id) else None
    case BlockField => if g.timeBlock.Some? then Some(g.timeBlock.value.id) else None
    case SlotField => if g.timeSlot.Some? then Some(g.timeSlot.value.id) else None
  }

  // ---------------------------------------------------------------------
  // SchedulerHandler.get: the grid payload

  datatype LocationRow = LocationRow(text: string, id: nat)
  datatype BlockRow = BlockRow(text: string, id: nat, offset: int)
  datatype SlotRow = SlotRow(text: string, id: nat, start: real, width: real)
  datatype GameRow = GameRow(title: string, id: nat, gm: string,
                             location: int, timeBlock: int, timeSlot: int,
                             preferredTime: string, specialRequests: string,
                             start: real, width: real)
  datatype Grid = Grid(locations: seq<LocationRow>, games: seq<GameRow>,
                       blocks: seq<BlockRow>, slots: seq<SlotRow>)

  /** A game that can be placed: its block, if it has one with a slot, has a first word. */
  predicate Placeable(g: Game)
  {
    Start(g).Ok?
  }

  function GameRowOf(g: Game, locs: seq<Location>, blocks: seq<TimeBlock>, slots: seq<TimeSlot>): GameRow
    requires Placeable(g)
  {
    GameRow(g.title, g.id, g.gm,
            RefIndex(RefId(g, LocationField), Ids(locs, LocationId)),
            RefIndex(RefId(g, BlockField), Ids(blocks, BlockId)),
            RefIndex(RefId(g, SlotField), Ids(slots, SlotId)),
            g.preferredTime, g.specialRequests, Start(g).value, Width(g.timeSlot))
  }

  /**
   * The payload of SchedulerHandler.get for the con's locations, the blocks
   * in sort order, the slots in start order and the games. Any block (listed
   * or placed) without a first word raises IndexError.
   */
  function GridOf(locs: seq<Location>, blocks: seq<TimeBlock>, slots: seq<TimeSlot>, games: seq<Game>): (r: Result<Grid>)
    ensures r.Err? <==> (exists i :: 0 <= i < |games| && !Placeable(games[i])) ||
                        (exists i :: 0 <= i < |blocks| && !Named(blocks[i]))
    ensures r.Err? ==> r.error == IndexError
    ensures r.Ok? ==> |r.value.locations| == |locs| && |r.value.games| == |games| &&
                      |r.value.blocks| == |blocks| && |r.value.slots| == |slots|
  {
    if (exists i :: 0 <= i < |games| && !Placeable(games[i])) ||
       (exists i :: 0 <= i < |blocks| && !Named(blocks[i])) then Err(IndexError)
    else
      Ok(Grid(seq(|locs|, i requires 0 <= i < |locs| => LocationRow(locs[i].text, locs[i].id)),
              seq(|games|, i requires 0 <= i < |games| => GameRowOf(games[i], locs, blocks, slots)),
              seq(|blocks|, i requires 0 <= i < |blocks| => BlockRow(blocks[i].text, blocks[i].id, BlockOffset(blocks[i]).value)),
              seq(|slots|, i requires 0 <= i < |slots| => SlotRow(TimeSlotStr(slots[i]), slots[i].id, slots[i].start, Width(Some(slots[i]))))))
  }

  /**
   * A client reading the payload finds each game's references again: an
   * index of -1 means the game has no such reference or it is not listed,
   * any other index names the row with the referenced id.
   */
  lemma GridReferencesResolve(locs: seq<Location>, blocks: seq<TimeBlock>, slots: seq<TimeSlot>, games: seq<Game>, k: nat)
    requires GridOf(locs, blocks, slots, games).Ok? && k < |games|
    ensures var grid := GridOf(locs, blocks, slots, games).value;
            var row, g := grid.games[k], games[k];
            (row.location == -1 <==> RefId(g, LocationField).None? || RefId(g, LocationField).value !in Ids(locs, LocationId)) &&
            (row.location >= 0 ==> Some(grid.locations[row.location].id) == RefId(g, LocationField)) &&
            (row.timeBlock == -1 <==> RefId(g, BlockField).None? || RefId(g, BlockField).value !in Ids(blocks, BlockId)) &&
            (row.timeBlock >= 0 ==> Some(grid.blocks[row.timeBlock].id) == RefId(g, BlockField)) &&
            (row.timeSlot == -1 <==> RefId(g, SlotField).None? || RefId(g, SlotField).value !in Ids(slots, SlotId)) &&
            (row.timeSlot >= 0 ==> Some(grid.slots[row.timeSlot].id) == RefId(g, SlotField))
  {
  }

  // ---------------------------------------------------------------------
  // SchedulerHandler.post: rescheduling one game

  /** The `keys` table: the three schedule fields in the order they are processed. */
  const Keys: seq<Field> := [LocationField, BlockField, SlotField]

  function FieldName(f: Field): string
  {
    match f
    case LocationField => "location"
    case BlockField => "time_block"
    case SlotField => "time_slot"
  }

  function ModelName(f: Field): string
  {
    match f
    case LocationField => "Location"
    case BlockField => "TimeBlock"
    case SlotField => "TimeSlot"
  }

  /** The rows the `objects.get` lookups search. */
  datatype Tables = Tables(locations: seq<Location>, blocks: seq<TimeBlock>, slots: seq<TimeSlot>)

  function TableIds(f: Field, t: Tables): seq<nat>
  {
    match f
    case LocationField => Ids(t.locations, LocationId)
    case BlockField => Ids(t.blocks, BlockId)
    case SlotField => Ids(t.slots, SlotId)
  }

  /**
   * The new value of one field: a field the request leaves out (or leaves
   * empty) clears it; an id no row carries raises DoesNotExist.
   */
  function Incoming(f: Field, post: map<string, nat>, t: Tables): (r: Result<Option<nat>>)
    ensures FieldName(f) !in post ==> r == Ok(None)
    ensures FieldName(f) in post ==> (r.Ok? <==> post[FieldName(f)] in TableIds(f, t))
    ensures FieldName(f) in post && r.Ok? ==> r.value == Some(post[FieldName(f)])
    ensures r.Err? ==> r.error == DoesNotExist(ModelName(f))
  {
    if FieldName(f) !in post then Ok(None)
    else if post[FieldName(f)] in TableIds(f, t) then Ok(Some(post[FieldName(f)]))
    else Err(DoesNotExist(ModelName(f)))
  }

  /** setattr(game, key, new): one field set to the looked-up row, the rest kept. */
  function Assign(g: Game, f: Field, id: Option<nat>, t: Tables): (h: Game)
    requires id.Some? ==> id.value in TableIds(f, t)
    ensures RefId(h, f) == id
    ensures forall other :: other != f ==> RefId(h, other) == RefId(g, other)
    ensures h.(location := g.location, timeBlock := g.timeBlock, timeSlot := g.timeSlot) == g
  {
    match f
    case LocationField =>
      g.(location := if id.Some? then Some(t.locations[GetIndex(id.value, Ids(t.locations, LocationId))]) else None)
    case BlockField =>
      g.(timeBlock := if id.Some? then Some(t.blocks[GetIndex(id.value, Ids(t.blocks, BlockId))]) else None)
    case SlotField =>
      g.(timeSlot := if id.Some? then Some(t.slots[GetIndex(id.value, Ids(t.slots, SlotId))]) else None)
  }

  /**
   * The loop of post over the fields fs: each field is overwritten in turn
   * and its name appended when the new reference differs from the old one.
   * The first lookup that fails ends it with that error.
   */
  function Reassign(g0: Game, fs: seq<Field>, post: map<string, nat>, t: Tables): Result<(Game, seq<string>)>
    decreases |fs|
  {
    if fs == [] then Ok((g0, []))
    else
      match Reassign(g0, fs[..|fs| - 1], post, t)
      case Err(e) => Err(e)
      case Ok(state) =>
        var f := fs[|fs| - 1];
        match Incoming(f, post, t)
        case Err(e) => Err(e)
        case Ok(id) =>
          Ok((Assign(state.0, f, id, t), state.1 + if RefId(state.0, f) != id then [FieldName(f)] else []))
  }

  /** Once a lookup has failed, the later fields change nothing: the error stands. */
  lemma {:induction false} ReassignErrorStands(g0: Game, fs: seq<Field>, more: seq<Field>, post: map<string, nat>, t: Tables)
    requires Reassign(g0, fs, post, t).Err?
    ensures Reassign(g0, fs + more, post, t) == Reassign(g0, fs, post, t)
    decreases |more|
  {
    if more != [] {
      var init := more[..|more| - 1];
      ReassignErrorStands(g0, fs, init, post, t);
      assert (fs + more)[..|fs + more| - 1] == fs + init;
      assert Reassign(g0, fs + more, post, t) == Reassign(g0, fs + init, post, t);
    } else {
      assert fs + more == fs;
    }
  }

  /** Python's ordering of strings: code point by code point, a prefix first. */
  predicate StrLess(a: string, b: string)
  {
    if a == [] then b != []
    else if b == [] then false
    else if a[0] != b[0] then a[0] < b[0]
    else StrLess(a[1..], b[1..])
  }

  predicate StrictlySorted(xs: seq<string>)
  {
    forall i, j :: 0 <= i < j < |xs| ==> StrLess(xs[i], xs[j])
  }

  /** Whether the request changes field f of g (comparing by id). */
  predicate Differs(g: Game, f: Field, post: map<string, nat>, t: Tables)
  {
    Incoming(f, post, t).Ok? && RefId(g, f) != Incoming(f, post, t).value
  }

  /** The names of the fields that differ, in key order. */
  function ChangedNames(g: Game, post: map<string, nat>, t: Tables): seq<string>
  {
    (if Differs(g, LocationField, post, t) then ["location"] else []) +
    (if Differs(g, BlockField, post, t) then ["time_block"] else []) +
    (if Differs(g, SlotField, post, t) then ["time_slot"] else [])
  }

  /**
   * Running the loop over all three keys: it fails at the first field whose
   * id does not resolve; otherwise every field holds its new reference, the
   * rest of the game is kept, and the changed list names exactly the fields
   * that differ.
   */
  lemma ReassignKeys(g0: Game, post: map<string, nat>, t: Tables)
    ensures var r := Reassign(g0, Keys, post, t);
            var l, b, s := Incoming(LocationField, post, t), Incoming(BlockField, post, t), Incoming(SlotField, post, t);
            (r.Err? <==> l.Err? || b.Err? || s.Err?) &&
            (l.Err? ==> r == Err(l.error)) &&
            (l.Ok? && b.Err? ==> r == Err(b.error)) &&
            (l.Ok? && b.Ok? && s.Err? ==> r == Err(s.error)) &&
            (r.Ok? ==> RefId(r.value.0, LocationField) == l.value &&
                       RefId(r.value.0, BlockField) == b.value &&
                       RefId(r.value.0, SlotField) == s.value &&
                       r.value.0.(location := g0.location, timeBlock := g0.timeBlock, timeSlot := g0.timeSlot) == g0 &&
                       r.value.1 == ChangedNames(g0, post, t))
  {
    var l, b, s := Incoming(LocationField, post, t), Incoming(BlockField, post, t), Incoming(SlotField, post, t);
    assert Keys[..2] == [LocationField, BlockField];
    assert [LocationField, BlockField][..1] == [LocationField];
    assert [LocationField][..0] == [];
    var r1 := Reassign(g0, [LocationField], post, t);
    var r2 := Reassign(g0, [LocationField, BlockField], post, t);
    var r3 := Reassign(g0, Keys, post, t);
    if l.Err? {
      assert r1 == Err(l.error) && r2 == r1 && r3 == r2;
    } else {
      var g1 := Assign(g0, LocationField, l.value, t);
      var c1: seq<string> := if Differs(g0, LocationField, post, t) then ["location"] else [];
      assert Reassign(g0, [], post, t) == Ok((g0, []));
      assert [] + c1 == c1;
      assert r1 == Ok((g1, c1));
      if b.Err? {
        assert r2 == Err(b.error) && r3 == r2;
      } else {
        var g2 := Assign(g1, BlockField, b.value, t);
        var c2 := c1 + if Differs(g0, BlockField, post, t) then ["time_block"] else [];
        assert r2 == Ok((g2, c2));
        if s.Err? {
          assert r3 == Err(s.error);
        } else {
          var g3 := Assign(g2, SlotField, s.value, t);
          assert r3 == Ok((g3, c2 + if Differs(g0, SlotField, post, t) then ["time_slot"] else []));
        }
      }
    }
  }

  /** The changed list is in sorted order, so changed.sort() leaves it as it is. */
  lemma ChangedNamesSorted(g: Game, post: map<string, nat>, t: Tables)
    ensures StrictlySorted(ChangedNames(g, post, t))
  {
    assert StrLess("location", "time_block");
    assert StrLess("location", "time_slot");
    assert StrLess("time_block", "time_slot") by {
      assert "time_block"[5..] == "block";
      assert "time_slot"[5..] == "slot";
      assert StrLess("time_block"[5..], "time_slot"[5..]);
      assert StrLess("time_block"[4..], "time_slot"[4..]);
      assert StrLess("time_block"[3..], "time_slot"[3..]);
      assert StrLess("time_block"[2..], "time_slot"[2..]);
      assert StrLess("time_block"[1..], "time_slot"[1..]);
    }
  }

  /** A name is in the changed list exactly when that field differs. */
  lemma ChangedNamesExactly(g: Game, post: map<string, nat>, t: Tables, f: Field)
    ensures FieldName(f) in ChangedNames(g, post, t) <==> Differs(g, f, post, t)
  {
  }

  const CommentPrefix: string := "AJAX Schedule Submission - "
  const CommentSuffix: string := " Changed"

  /** The revision comment: the changed names joined by ", ". */
  function Comment(changed: seq<string>): (c: string)
    ensures |c| >= |CommentPrefix| + |CommentSuffix|
  {
    CommentPrefix + Join(", ", changed) + CommentSuffix
  }

  /** Every revision comment starts with the prefix and ends with the suffix. */
  lemma CommentFrame(changed: seq<string>)
    ensures var c := Comment(changed);
            c[..|CommentPrefix|] == CommentPrefix && c[|c| - |CommentSuffix|..] == CommentSuffix
  {
    var j := Join(", ", changed);
    assert (CommentPrefix + j + CommentSuffix)[..|CommentPrefix|] == CommentPrefix;
  }

  /** The changed names read back from a revision comment. */
  function ChangedOfComment(c: string): seq<string>
    requires |c| >= |CommentPrefix| + |CommentSuffix|
  {
    var middle := c[|CommentPrefix|..|c| - |CommentSuffix|];
    if middle == [] then [] else StripAll(SplitOn(middle, ','))
  }

  function StripAll(parts: seq<string>): (r: seq<string>)
    ensures |r| == |parts| && forall i :: 0 <= i < |parts| ==> r[i] == Strip(parts[i])
  {
    seq(|parts|, i requires 0 <= i < |parts| => Strip(parts[i]))
  }

  /** Names that fit in a comment: words without commas. */
  predicate CommentNames(ws: seq<string>)
  {
    forall i :: 0 <= i < |ws| ==> IsWord(ws[i]) && ',' !in ws[i]
  }

  /** Splitting a ", "-joined list at its commas gives the names, all but the first after a space. */
  lemma {:induction false} SplitJoined(pre: string, ws: seq<string>)
    requires ws != [] && CommentNames(ws) && ',' !in pre
    ensures var parts := SplitOn(pre + Join(", ", ws), ',');
            |parts| == |ws| && parts[0] == pre + ws[0] &&
            forall i :: 1 <= i < |ws| ==> parts[i] == " " + ws[i]
    decreases |ws|
  {
    if |ws| == 1 {
      assert ',' !in pre + ws[0];
      SplitOnNoSeparator(pre + ws[0], ',');
    } else {
      var rest := Join(", ", ws[1..]);
      assert pre + Join(", ", ws) == (pre + ws[0]) + [','] + (" " + rest);
      assert ',' !in pre + ws[0];
      SplitOnFirst(pre + ws[0], ',', " " + rest);
      SplitJoined(" ", ws[1..]);
      var parts, later := SplitOn(pre + Join(", ", ws), ','), SplitOn(" " + rest, ',');
      assert parts == [pre + ws[0]] + later;
      forall i | 1 <= i < |ws| ensures parts[i] == " " + ws[i] {
        assert parts[i] == later[i - 1] && ws[1..][i - 1] == ws[i];
      }
    }
  }

  lemma MiddleOf(p: string, m: string, q: string)
    ensures (p + m + q)[|p|..|p + m + q| - |q|] == m
  {
  }

  lemma StripLeadingSpace(w: string)
    requires IsWord(w)
    ensures Strip(" " + w) == w
  {
    assert (" " + w)[1..] == w;
    StripUnpadded(w);
  }

  /** The changed names can be read back from the comment. */
  lemma CommentRoundTrip(changed: seq<string>)
    requires CommentNames(changed)
    ensures ChangedOfComment(Comment(changed)) == changed
  {
    var j := Join(", ", changed);
    var c := Comment(changed);
    MiddleOf(CommentPrefix, j, CommentSuffix);
    if changed != [] {
      SplitJoined([], changed);
      assert [] + j == j && [] + changed[0] == changed[0];
      var parts := SplitOn(j, ',');
      assert j != [];
      assert ChangedOfComment(c) == StripAll(parts);
      forall i | 0 <= i < |changed| ensures Strip(parts[i]) == changed[i] {
        if i == 0 {
          StripUnpadded(changed[0]);
        } else {
          StripLeadingSpace(changed[i]);
        }
      }
    }
  }

  /** The comment of the view tests when nothing changed. */
  lemma CommentOfNothing()
    ensures Comment([]) == "AJAX Schedule Submission -  Changed"
  {
    assert Comment([]) == CommentPrefix + [] + CommentSuffix;
  }

  /** The comment of the view tests when the location and the block changed. */
  lemma CommentOfTwo()
    ensures Comment(["location", "time_block"]) == "AJAX Schedule Submission - location, time_block Changed"
  {
    assert ["location", "time_block"][1..] == ["time_block"];
    assert Join(", ", ["location", "time_block"]) == "location" + ", " + "time_block";
  }

  const NotLoggedIn: string := "Not logged in!  Only staff have access to this function"
  const StaffOnly: string := "Only staff have access to this function"

  /** The saved game and the revision comment of a successful request. */
  datatype Submission = Submission(game: Game, comment: string)

  /**
   * SchedulerHandler.post as a function of the caller, the posted ids, the
   * games and the lookup tables, and the time of the request.
   */
  function Schedule(user: User, post: map<string, nat>, games: map<nat, Game>, t: Tables, now: int): Result<Submission>
  {
    if !user.isAuthenticated then Err(Exception(NotLoggedIn))
    else if !user.isStaff && !user.isSuperuser then Err(Exception(StaffOnly))
    else if "id" !in post || post["id"] !in games then Err(DoesNotExist("Game"))
    else
      match Reassign(games[post["id"]], Keys, post, t)
      case Err(e) => Err(e)
      case Ok(state) => Ok(Submission(state.0.(lastScheduled := Some(now)), Comment(state.1)))
  }

  /** The permission checks come first, whatever is posted and stored. */
  lemma ScheduleChecksPermissionFirst(user: User, post: map<string, nat>, games: map<nat, Game>, t: Tables, now: int)
    ensures !user.isAuthenticated ==> Schedule(user, post, games, t, now) == Err(Exception(NotLoggedIn))
    ensures user.isAuthenticated && !user.isStaff && !user.isSuperuser ==>
              Schedule(user, post, games, t, now) == Err(Exception(StaffOnly))
    ensures Schedule(user, post, games, t, now).Ok? ==> user.isAuthenticated && (user.isStaff || user.isSuperuser)
  {
  }

  /** The field names are words without commas, so they can be read back from a comment. */
  lemma ChangedNamesFit(g: Game, post: map<string, nat>, t: Tables)
    ensures CommentNames(ChangedNames(g, post, t))
  {
    assert IsWord("location") && ',' !in "location";
    assert IsWord("time_block") && ',' !in "time_block";
    assert IsWord("time_slot") && ',' !in "time_slot";
    var changed := ChangedNames(g, post, t);
    assert forall i :: 0 <= i < |changed| ==> changed[i] in {"location", "time_block", "time_slot"};
  }

  /**
   * A successful request overwrites all three references with the posted
   * ones, keeps the other fields and always stamps last_scheduled.
   */
  lemma ScheduleOverwrites(user: User, post: map<string, nat>, games: map<nat, Game>, t: Tables, now: int)
    requires Schedule(user, post, games, t, now).Ok?
    ensures "id" in post && post["id"] in games
    ensures var s, g0 := Schedule(user, post, games, t, now).value, games[post["id"]];
            (forall f :: Incoming(f, post, t).Ok? && RefId(s.game, f) == Incoming(f, post, t).value) &&
            s.game.lastScheduled == Some(now) &&
            s.game.(location := g0.location, timeBlock := g0.timeBlock, timeSlot := g0.timeSlot,
                    lastScheduled := g0.lastScheduled) == g0
  {
    var g0 := games[post["id"]];
    var r := Reassign(g0, Keys, post, t);
    ReassignKeys(g0, post, t);
    var s := Schedule(user, post, games, t, now).value;
    assert s.game == r.value.0.(lastScheduled := Some(now));
    forall f ensures Incoming(f, post, t).Ok? && RefId(s.game, f) == Incoming(f, post, t).value {
      assert RefId(s.game, f) == RefId(r.value.0, f);
    }
  }

  /**
   * The comment of a successful request names exactly the changed fields,
   * in sorted order, and they can be read back from it.
   */
  lemma ScheduleComment(user: User, post: map<string, nat>, games: map<nat, Game>, t: Tables, now: int)
    requires Schedule(user, post, games, t, now).Ok?
    ensures "id" in post && post["id"] in games
    ensures var s, g0 := Schedule(user, post, games, t, now).value, games[post["id"]];
            s.comment == Comment(ChangedNames(g0, post, t)) &&
            StrictlySorted(ChangedNames(g0, post, t)) &&
            ChangedOfComment(s.comment) == ChangedNames(g0, post, t)
  {
    var g0 := games[post["id"]];
    ReassignKeys(g0, post, t);
    ChangedNamesSorted(g0, post, t);
    ChangedNamesFit(g0, post, t);
    CommentRoundTrip(ChangedNames(g0, post, t));
  }

  /** Posting a game's current references changes nothing but still stamps it. */
  lemma ScheduleWithoutChange(user: User, post: map<string, nat>, games: map<nat, Game>, t: Tables, now: int)
    requires Schedule(user, post, games, t, now).Ok?
    requires forall f :: !Differs(games[post["id"]], f, post, t)
    ensures Schedule(user, post, games, t, now).value.comment == "AJAX Schedule Submission -  Changed"
    ensures Schedule(user, post, games, t, now).value.game.lastScheduled == Some(now)
  {
    var g0 := games[post["id"]];
    ReassignKeys(g0, post, t);
    assert ChangedNames(g0, post, t) == [] by {
      assert !Differs(g0, LocationField, post, t) && !Differs(g0, BlockField, post, t) && !Differs(g0, SlotField, post, t);
    }
    CommentOfNothing();
  }

  /** The stored games, which post reads one of and saves back. */
  class GameTable {
    var games: map<nat, Game>

    constructor (games: map<nat, Game>)
      ensures this.games == games
    {
      this.games := games;
    }

    /**
     * SchedulerHandler.post: check the caller, load the game, overwrite its
     * three references in key order, stamp it and save it. Returns the
     * revision comment; a request that raises saves nothing.
     */
    method Post(user: User, post: map<string, nat>, t: Tables, now: int) returns (r: Result<string>)
      modifies this
      ensures var s := Schedule(user, post, old(games), t, now);
              (r.Ok? <==> s.Ok?) &&
              (r.Err? ==> r.error == s.error && games == old(games)) &&
              (r.Ok? ==> r.value == s.value.comment && games == old(games)[post["id"] := s.value.game])
    {
      if !user.isAuthenticated {
        return Err(Exception(NotLoggedIn));
      }
      if !user.isStaff && !user.isSuperuser {
        return Err(Exception(StaffOnly));
      }
      if "id" !in post || post["id"] !in games {
        return Err(DoesNotExist("Game"));
      }
      var id := post["id"];
      var game := games[id];
      var changed: seq<string> := [];
      for i := 0 to |Keys|
        invariant Reassign(games[id], Keys[..i], post, t) == Ok((game, changed))
      {
        var f := Keys[i];
        assert Keys[..i + 1][..i] == Keys[..i] && Keys[..i + 1][i] == f;
        var incoming := Incoming(f, post, t);
        if incoming.Err? {
          assert Reassign(games[id], Keys[..i + 1], post, t) == Err(incoming.error);
          ReassignErrorStands(games[id], Keys[..i + 1], Keys[i + 1..], post, t);
          assert Keys[..i + 1] + Keys[i + 1..] == Keys;
          return Err(incoming.error);
        }
        var old_ref := RefId(game, f);
        var next := Assign(game, f, incoming.value, t);
        ghost var step := if old_ref != incoming.value then [FieldName(f)] else [];
        assert Reassign(games[id], Keys[..i + 1], post, t) == Ok((next, changed + step));
        game := next;
        if old_ref != incoming.value {
          changed := changed + [FieldName(f)];
        } else {
          assert changed + step == changed;
        }
      }
      assert Keys[..|Keys|] == Keys;
      // changed.sort() leaves the list as it is: see ChangedNamesSorted.
      game := game.(lastScheduled := Some(now));
      games := games[id := game];
      r := Ok(Comment(changed));
    }
  }

  // ---------------------------------------------------------------------
  // ScheduleView.get_queryset: games grouped by their block's label

  /** The group keys in order of first occurrence. */
  function GroupKeys(games: seq<Game>): (keys: seq<string>)
    ensures |keys| <= |games|
  {
    if games == [] then []
    else
      var keys := GroupKeys(games[..|games| - 1]);
      var k := FriendlyBlock(games[|games| - 1]);
      if k in keys then keys else keys + [k]
  }

  /** The keys are the labels of the listed games. */
  lemma {:induction false} GroupKeysMembers(games: seq<Game>)
    ensures forall k :: k in GroupKeys(games) <==> exists i :: 0 <= i < |games| && FriendlyBlock(games[i]) == k
  {
    if games != [] {
      var init := games[..|games| - 1];
      GroupKeysMembers(init);
      assert forall i :: 0 <= i < |init| ==> init[i] == games[i];
    }
  }

  /** Each label is a key once. */
  lemma {:induction false} GroupKeysDistinct(games: seq<Game>)
    ensures forall i, j :: 0 <= i < j < |GroupKeys(games)| ==> GroupKeys(games)[i] != GroupKeys(games)[j]
  {
    if games != [] {
      GroupKeysDistinct(games[..|games| - 1]);
    }
  }

  /** The games of one group, in the order they were listed. */
  function Members(games: seq<Game>, key: string): (ms: seq<Game>)
    ensures |ms| <= |games|
    ensures forall i :: 0 <= i < |ms| ==> FriendlyBlock(ms[i]) == key
  {
    if games == [] then []
    else
      var g := games[|games| - 1];
      Members(games[..|games| - 1], key) + if FriendlyBlock(g) == key then [g] else []
  }

  /** What one more listed game does to the keys and the groups. */
  lemma GroupOneMore(games: seq<Game>, g: Game)
    ensures GroupKeys(games + [g]) ==
            if FriendlyBlock(g) in GroupKeys(games) then GroupKeys(games) else GroupKeys(games) + [FriendlyBlock(g)]
    ensures forall k :: Members(games + [g], k) == Members(games, k) + if FriendlyBlock(g) == k then [g] else []
  {
    assert (games + [g])[..|games|] == games;
  }

  /** A key no game carries has no members. */
  lemma {:induction false} MembersOfAbsentKey(games: seq<Game>, key: string)
    requires key !in GroupKeys(games)
    ensures Members(games, key) == []
  {
    if games != [] {
      MembersOfAbsentKey(games[..|games| - 1], key);
    }
  }

  /** keys and groups are the OrderedDict that get_queryset builds from games. */
  ghost predicate Grouped(games: seq<Game>, keys: seq<string>, groups: map<string, seq<Game>>)
  {
    keys == GroupKeys(games) &&
    (forall k :: k in groups <==> k in keys) &&
    (forall k :: k in groups ==> groups[k] == Members(games, k))
  }

  /** The keys and groups after one more game, when they were right before it. */
  lemma GroupStep(pre: seq<Game>, g: Game, keys: seq<string>, groups: map<string, seq<Game>>)
    requires Grouped(pre, keys, groups)
    ensures var key := FriendlyBlock(g);
            Grouped(pre + [g], if key in groups then keys else keys + [key],
                    groups[key := (if key in groups then groups[key] else []) + [g]])
  {
    GroupOneMore(pre, g);
    var key := FriendlyBlock(g);
    if key !in groups {
      MembersOfAbsentKey(pre, key);
    }
  }

  /**
   * get_queryset's loop: an OrderedDict from label to games, kept as its
   * key order and its map.
   */
  method GroupByBlock(games: seq<Game>) returns (keys: seq<string>, groups: map<string, seq<Game>>)
    ensures keys == GroupKeys(games)
    ensures forall k :: k in groups <==> k in keys
    ensures forall k :: k in groups ==> groups[k] == Members(games, k)
  {
    keys, groups := [], map[];
    for i := 0 to |games|
      invariant Grouped(games[..i], keys, groups)
    {
      var game := games[i];
      assert games[..i + 1] == games[..i] + [game];
      GroupStep(games[..i], game, keys, groups);
      ghost var before := groups;
      var key := FriendlyBlock(game);
      if key !in groups {
        keys := keys + [key];
        groups := groups[key := []];
      }
      groups := groups[key := groups[key] + [game]];
      assert groups == before[key := (if key in before then before[key] else []) + [game]];
    }
    assert games[..|games|] == games;
  }

  /** The number of games in the groups of keys. */
  function GroupedCount(keys: seq<string>, games: seq<Game>): nat
  {
    if keys == [] then 0 else GroupedCount(keys[..|keys| - 1], games) + |Members(games, keys[|keys| - 1])|
  }

  /** One more game adds one to its own group's count and nothing to the others. */
  lemma {:induction false} GroupedCountAddGame(keys: seq<string>, games: seq<Game>, g: Game)
    requires forall i, j :: 0 <= i < j < |keys| ==> keys[i] != keys[j]
    ensures GroupedCount(keys, games + [g]) == GroupedCount(keys, games) + if FriendlyBlock(g) in keys then 1 else 0
  {
    assert (games + [g])[..|games|] == games;
    if keys != [] {
      var init := keys[..|keys| - 1];
      GroupedCountAddGame(init, games, g);
      assert FriendlyBlock(g) in keys <==> FriendlyBlock(g) in init || FriendlyBlock(g) == keys[|keys| - 1];
    }
  }

  /**
   * Every game lands in exactly one group, the one named by its label: the
   * groups together hold as many games as were listed, and each holds only
   * games with its own label.
   */
  lemma {:induction false} GroupsPartitionGames(games: seq<Game>)
    ensures GroupedCount(GroupKeys(games), games) == |games|
    ensures forall k, i :: k in GroupKeys(games) && 0 <= i < |Members(games, k)| ==> FriendlyBlock(Members(games, k)[i]) == k
  {
    if games != [] {
      var init, g := games[..|games| - 1], games[|games| - 1];
      assert games == init + [g];
      GroupsPartitionGames(init);
      var keys := GroupKeys(init);
      GroupKeysDistinct(init);
      GroupedCountAddGame(keys, init, g);
      if FriendlyBlock(g) !in keys {
        MembersOfAbsentKey(init, FriendlyBlock(g));
      }
    }
  }
}
