/**
 * The forms of convention/forms.py: the sign-up form's referral-code check,
 * and the attendance form, whose fields offer one choice per scheduled time
 * block, whose validation asks for at least one session, and whose save
 * reconciles a registration's per-block entries with the submitted choices.
 */
module Forms {
  import opened Wrappers
  import opened Text
  import opened Models
  import Utils

  // ---------------------------------------------------------------------
  // NewUserForm.clean_referral_code

  /** A referral code and the user who signed up with it, if any. */
  datatype Referral = Referral(code: string, referredUser: Option<nat>)

  /** k is the first stored referral carrying code. */
  predicate FirstWithCode(code: string, referrals: seq<Referral>, k: int)
  {
    0 <= k < |referrals| && referrals[k].code == code &&
    forall j :: 0 <= j < k ==> referrals[j].code != code
  }

  /** The referrals carrying code, in stored order. */
  function ReferralsWith(code: string, referrals: seq<Referral>): (found: seq<Referral>)
    ensures found == [] <==> forall i :: 0 <= i < |referrals| ==> referrals[i].code != code
    ensures found != [] ==> FirstWithCode(code, referrals, IndexOfFirst(code, referrals)) &&
                            found[0] == referrals[IndexOfFirst(code, referrals)]
  {
    if referrals == [] then []
    else (if referrals[0].code == code then [referrals[0]] else []) + ReferralsWith(code, referrals[1..])
  }

  /** The position of the first referral carrying code, or |referrals| when none does. */
  function IndexOfFirst(code: string, referrals: seq<Referral>): (k: nat)
    ensures k <= |referrals|
    ensures forall j :: 0 <= j < k ==> referrals[j].code != code
    ensures k < |referrals| ==> referrals[k].code == code
  {
    if referrals == [] || referrals[0].code == code then 0 else 1 + IndexOfFirst(code, referrals[1..])
  }

  /** The first stored referral with a code is the only one that can be it. */
  lemma FirstWithCodeUnique(code: string, referrals: seq<Referral>, k: int, m: int)
    requires FirstWithCode(code, referrals, k) && FirstWithCode(code, referrals, m)
    ensures k == m
  {
  }

  const InvalidReferral: Error := ValidationError("invalid referral")
  const UsedReferral: Error := ValidationError("already used referral")

  /**
   * The empty code passes; any other code must belong to a stored referral,
   * and the first such referral must not have been used yet.
   */
  function CleanReferralCode(code: string, referrals: seq<Referral>): (r: Result<string>)
    ensures r.Ok? ==> r.value == code
    ensures r.Err? ==> r.error == InvalidReferral || r.error == UsedReferral
    ensures code == "" ==> r == Ok(code)
    ensures r == Err(InvalidReferral) <==>
              code != "" && forall i :: 0 <= i < |referrals| ==> referrals[i].code != code
    ensures r == Err(UsedReferral) <==>
              code != "" && exists k :: FirstWithCode(code, referrals, k) && referrals[k].referredUser.Some?
  {
    if code == "" then Ok(code)
    else
      var found := ReferralsWith(code, referrals);
      if |found| == 0 then Err(InvalidReferral)
      else
        var referral := found[0];
        assert forall k :: FirstWithCode(code, referrals, k) ==> k == IndexOfFirst(code, referrals);
        if referral.referredUser.Some? then Err(UsedReferral) else Ok(code)
  }

  // ---------------------------------------------------------------------
  // Field keys: "block_%s" % time_block.id

  const BlockPrefix: string := "block_"

  function BlockKey(id: nat): (key: string)
    ensures StartsWith(key, BlockPrefix)
  {
    BlockPrefix + NatToString(id)
  }

  /** Distinct blocks get distinct keys. */
  lemma BlockKeyInjective(a: nat, b: nat)
    requires BlockKey(a) == BlockKey(b)
    ensures a == b
  {
    assert NatToString(a) == BlockKey(a)[|BlockPrefix|..];
    assert NatToString(b) == BlockKey(b)[|BlockPrefix|..];
    NatToStringInjective(a, b);
  }

  /** What a block is looked up by: its primary key, or its text. */
  datatype BlockMatch = WithId(id: nat) | WithText(text: string)

  predicate Matches(b: TimeBlock, m: BlockMatch)
  {
    match m
    case WithId(id) => b.id == id
    case WithText(text) => b.text == text
  }

  /** The first stored block that matches: `filter(...)[0]` guarded by a test for an empty result. */
  function FirstBlock(m: BlockMatch, blocks: seq<TimeBlock>): (r: Option<TimeBlock>)
    ensures r.None? <==> forall i :: 0 <= i < |blocks| ==> !Matches(blocks[i], m)
    ensures r.Some? ==> r.value in blocks && Matches(r.value, m)
  {
    if blocks == [] then None
    else if Matches(blocks[0], m) then Some(blocks[0])
    else FirstBlock(m, blocks[1..])
  }

  /** Python's message when int() is given something that is not a number. */
  function NotANumber(s: string): Error
  {
    ValueError("invalid literal for int() with base 10: '" + s + "'")
  }

  /**
   * The text of the block a field key names: the part after the first '_' is
   * read as an id and the first block with that id is looked up.
   */
  function KeyText(key: string, blocks: seq<TimeBlock>): (r: Result<string>)
    ensures r.Ok? ==> exists b :: b in blocks && b.text == r.value
  {
    var parts := SplitOn(key, '_');
    if |parts| < 2 then Err(IndexError)
    else if parts[1] == [] || !IsDigits(parts[1]) then Err(NotANumber(parts[1]))
    else
      match FirstBlock(WithId(DigitsValue(parts[1])), blocks)
      case None => Err(IndexError)
      case Some(b) => Ok(b.text)
  }

  /** Reading back the key of a block id finds the first block with that id. */
  lemma KeyTextOfBlockKey(id: nat, blocks: seq<TimeBlock>)
    ensures KeyText(BlockKey(id), blocks) ==
              match FirstBlock(WithId(id), blocks)
              case None => Err(IndexError)
              case Some(b) => Ok(b.text)
  {
    var digits := NatToString(id);
    assert '_' !in digits by {
      forall i | 0 <= i < |digits| ensures digits[i] != '_' {
        assert IsDigit(digits[i]);
      }
    }
    assert BlockKey(id) == "block" + ['_'] + digits;
    SplitOnFirst("block", '_', digits);
    SplitOnNoSeparator(digits, '_');
    assert SplitOn(BlockKey(id), '_') == ["block", digits];
    DigitsRoundTrip(id);
  }

  // ---------------------------------------------------------------------
  // AttendanceForm fields

  /** One choice field of the form: its key, its label (the block text) and its initial code. */
  datatype Field = Field(key: string, name: string, initial: string)

  /** The field of one block: initially the code the form data holds for its key, else "Y". */
  function FieldFor(b: TimeBlock, data: map<string, string>): (f: Field)
    ensures f.key == BlockKey(b.id) && f.name == b.text
    ensures BlockKey(b.id) in data ==> f.initial == data[BlockKey(b.id)]
    ensures BlockKey(b.id) !in data ==> f.initial == AttendanceYes
  {
    var key := BlockKey(b.id);
    Field(key, b.text, if key in data then data[key] else AttendanceYes)
  }

  /** The form's fields: one per scheduled block, in the order the blocks are given (by sort_id). */
  function FormFields(blocks: seq<TimeBlock>, data: map<string, string>): (fs: seq<Field>)
  {
    var scheduled := Utils.ScheduledBlocks(blocks);
    seq(|scheduled|, i requires 0 <= i < |scheduled| => FieldFor(scheduled[i], data))
  }

  /** Block ids are primary keys: no two stored blocks share one. */
  predicate UniqueBlockIds(blocks: seq<TimeBlock>)
  {
    forall i, j :: 0 <= i < j < |blocks| ==> blocks[i].id != blocks[j].id
  }

  /** With unique ids, a block is determined by its id. */
  lemma SameIdSameBlock(blocks: seq<TimeBlock>, x: TimeBlock, y: TimeBlock)
    requires UniqueBlockIds(blocks) && x in blocks && y in blocks && x.id == y.id
    ensures x == y
  {
    var i :| 0 <= i < |blocks| && blocks[i] == x;
    var j :| 0 <= j < |blocks| && blocks[j] == y;
    assert !(i < j) && !(j < i);
  }

  /**
   * Every field belongs to a scheduled block, every scheduled block has a
   * field, and with block ids unique no two fields share a key.
   */
  lemma FormFieldsFollowBlocks(blocks: seq<TimeBlock>, data: map<string, string>)
    ensures var fs := FormFields(blocks, data);
            (forall f :: f in fs ==> exists b :: b in blocks && Utils.Scheduled(b) && f == FieldFor(b, data)) &&
            (forall b :: b in blocks && Utils.Scheduled(b) ==> FieldFor(b, data) in fs)
    ensures UniqueBlockIds(blocks) ==>
              var fs := FormFields(blocks, data);
              forall i, j :: 0 <= i < j < |fs| ==> fs[i].key != fs[j].key
  {
    var scheduled := Utils.ScheduledBlocks(blocks);
    var fs := FormFields(blocks, data);
    forall f | f in fs ensures exists b :: b in blocks && Utils.Scheduled(b) && f == FieldFor(b, data) {
      var i :| 0 <= i < |fs| && fs[i] == f;
      assert scheduled[i] in scheduled;
    }
    forall b | b in blocks && Utils.Scheduled(b) ensures FieldFor(b, data) in fs {
      var i := Utils.IndexOf(b, scheduled);
      assert fs[i] == FieldFor(b, data);
    }
    if UniqueBlockIds(blocks) {
      forall i, j | 0 <= i < j < |fs| ensures fs[i].key != fs[j].key {
        if fs[i].key == fs[j].key {
          BlockKeyInjective(scheduled[i].id, scheduled[j].id);
          ScheduledBlocksDistinct(blocks, i, j);
        }
      }
    }
  }

  /** Two positions of the scheduled blocks hold different blocks when the ids are unique. */
  lemma {:induction false} ScheduledBlocksDistinct(blocks: seq<TimeBlock>, i: nat, j: nat)
    requires UniqueBlockIds(blocks)
    requires i < j < |Utils.ScheduledBlocks(blocks)|
    ensures Utils.ScheduledBlocks(blocks)[i].id != Utils.ScheduledBlocks(blocks)[j].id
  {
    var scheduled := Utils.ScheduledBlocks(blocks);
    var rest := Utils.ScheduledBlocks(blocks[1..]);
    assert UniqueBlockIds(blocks[1..]) by {
      forall a, b | 0 <= a < b < |blocks[1..]| ensures blocks[1..][a].id != blocks[1..][b].id {
        assert blocks[1..][a] == blocks[a + 1] && blocks[1..][b] == blocks[b + 1];
      }
    }
    if Utils.Scheduled(blocks[0]) {
      assert scheduled == [blocks[0]] + rest;
      if i == 0 {
        var b := scheduled[j];
        assert b == rest[j - 1] && b in rest && b in blocks[1..];
        var m :| 0 <= m < |blocks[1..]| && blocks[1..][m] == b;
        assert blocks[m + 1] == b;
      } else {
        ScheduledBlocksDistinct(blocks[1..], i - 1, j - 1);
      }
    } else {
      assert scheduled == rest;
      ScheduledBlocksDistinct(blocks[1..], i, j);
    }
  }

  // ---------------------------------------------------------------------
  // The form data of a stored registration

  /**
   * The form data __init__ builds from a registration's entries: each entry
   * whose text names a stored block sets that block's key to its code; a later
   * entry for the same block overwrites an earlier one.
   */
  function InitialData(items: seq<BlockRegistration>, blocks: seq<TimeBlock>): map<string, string>
  {
    if items == [] then map[]
    else
      var item := items[|items| - 1];
      var data := InitialData(items[..|items| - 1], blocks);
      match FirstBlock(WithText(item.timeBlock), blocks)
      case None => data
      case Some(b) => data[BlockKey(b.id) := item.attendance]
  }

  /** The code of the last entry for a block text, if there is one. */
  function LastAttendance(text: string, items: seq<BlockRegistration>): Option<string>
  {
    if items == [] then None
    else if items[|items| - 1].timeBlock == text then Some(items[|items| - 1].attendance)
    else LastAttendance(text, items[..|items| - 1])
  }

  /**
   * There is a code exactly when some entry has the text, and then it is the
   * code of an entry with the text that no later entry with the text follows.
   */
  lemma {:induction false} LastAttendanceFound(text: string, items: seq<BlockRegistration>)
    ensures var r := LastAttendance(text, items);
            r.None? <==> forall i :: 0 <= i < |items| ==> items[i].timeBlock != text
    ensures var r := LastAttendance(text, items);
            r.Some? ==> exists i :: 0 <= i < |items| && items[i].timeBlock == text && items[i].attendance == r.value &&
                                    forall j :: i < j < |items| ==> items[j].timeBlock != text
  {
    if items != [] && items[|items| - 1].timeBlock != text {
      var init := items[..|items| - 1];
      LastAttendanceFound(text, init);
      assert forall i :: 0 <= i < |init| ==> init[i] == items[i];
    }
  }

  /**
   * A block that is the first stored block with its text is offered with the
   * code of the last entry for that text, or "Y" when the registration has none.
   */
  lemma {:induction false} StoredInitial(items: seq<BlockRegistration>, blocks: seq<TimeBlock>, b: TimeBlock)
    requires UniqueBlockIds(blocks) && b in blocks && FirstBlock(WithText(b.text), blocks) == Some(b)
    ensures FieldFor(b, InitialData(items, blocks)).initial ==
              match LastAttendance(b.text, items)
              case Some(code) => code
              case None => AttendanceYes
  {
    if items != [] {
      var init, item := items[..|items| - 1], items[|items| - 1];
      StoredInitial(init, blocks, b);
      match FirstBlock(WithText(item.timeBlock), blocks)
      case None =>
        assert item.timeBlock != b.text;
      case Some(c) =>
        if item.timeBlock != b.text {
          assert c != b;
          if c.id == b.id {
            SameIdSameBlock(blocks, c, b);
          }
          if BlockKey(c.id) == BlockKey(b.id) {
            BlockKeyInjective(c.id, b.id);
          }
        }
    }
  }

  // ---------------------------------------------------------------------
  // time_block_fields and clean

  /** The fields whose key starts with "block_", in field order. */
  function TimeBlockFields(fields: seq<Field>): (r: seq<Field>)
    ensures |r| <= |fields|
    ensures forall f :: f in r <==> f in fields && StartsWith(f.key, BlockPrefix)
  {
    if fields == [] then []
    else
      var init, f := fields[..|fields| - 1], fields[|fields| - 1];
      assert forall g :: g in fields <==> g in init || g == f;
      TimeBlockFields(init) + if StartsWith(f.key, BlockPrefix) then [f] else []
  }

  /** Selecting the block fields leaves a list of block fields as it is. */
  lemma {:induction false} TimeBlockFieldsOfBlockFields(fields: seq<Field>)
    requires forall i :: 0 <= i < |fields| ==> StartsWith(fields[i].key, BlockPrefix)
    ensures TimeBlockFields(fields) == fields
  {
    if fields != [] {
      TimeBlockFieldsOfBlockFields(fields[..|fields| - 1]);
      assert fields[..|fields| - 1] + [fields[|fields| - 1]] == fields;
    }
  }

  /** All the fields the form builds are block fields. */
  lemma FormFieldsAreBlockFields(blocks: seq<TimeBlock>, data: map<string, string>)
    ensures TimeBlockFields(FormFields(blocks, data)) == FormFields(blocks, data)
  {
    TimeBlockFieldsOfBlockFields(FormFields(blocks, data));
  }

  /** A cleaned value that registers attendance: a block field not answered "No". */
  predicate Attends(entry: (string, string))
  {
    StartsWith(entry.0, BlockPrefix) && entry.1 != AttendanceNo
  }

  const NoAttendance: Error := ValidationError("invalid data")

  /**
   * clean: the cleaned data passes unchanged when some block field is not
   * "No", and is refused otherwise.
   */
  method Clean(result: seq<(string, string)>) returns (r: Result<seq<(string, string)>>)
    ensures r.Ok? <==> exists i :: 0 <= i < |result| && Attends(result[i])
    ensures r.Ok? ==> r.value == result
    ensures r.Err? ==> r.error == NoAttendance
  {
    var foundAttendance := false;
    var i := 0;
    while i < |result|
      invariant 0 <= i <= |result|
      invariant !foundAttendance
      invariant forall k :: 0 <= k < i ==> !Attends(result[k])
    {
      if StartsWith(result[i].0, BlockPrefix) && result[i].1 != AttendanceNo {
        foundAttendance := true;
        break;
      }
      i := i + 1;
    }
    if !foundAttendance {
      return Err(NoAttendance);
    }
    return Ok(result);
  }

  // ---------------------------------------------------------------------
  // save: reconciling a registration's entries with the form

  /** The entries of one registration, in stored order. */
  function RowsOf(regId: nat, entries: seq<BlockRegistration>): (rows: seq<BlockRegistration>)
    ensures |rows| <= |entries|
  {
    if entries == [] then []
    else (if entries[0].registration == regId then [entries[0]] else []) + RowsOf(regId, entries[1..])
  }

  /** The rows are exactly the registration's entries. */
  lemma {:induction false} RowsOfMembers(regId: nat, entries: seq<BlockRegistration>)
    ensures forall e :: e in RowsOf(regId, entries) <==> e in entries && e.registration == regId
  {
    if entries != [] {
      RowsOfMembers(regId, entries[1..]);
      assert forall e :: e in entries <==> e == entries[0] || e in entries[1..];
    }
  }

  /** old_regs: each block text mapped to the last of the rows that carries it. */
  function OldRegs(rows: seq<BlockRegistration>): (m: map<string, BlockRegistration>)
    ensures |m| <= |rows|
  {
    if rows == [] then map[]
    else OldRegs(rows[..|rows| - 1])[rows[|rows| - 1].timeBlock := rows[|rows| - 1]]
  }

  /** old_regs has a key for each text the rows carry, and maps it to a row with that text. */
  lemma {:induction false} OldRegsMembers(rows: seq<BlockRegistration>)
    ensures forall t :: t in OldRegs(rows) <==> exists e :: e in rows && e.timeBlock == t
    ensures forall t :: t in OldRegs(rows) ==> OldRegs(rows)[t] in rows && OldRegs(rows)[t].timeBlock == t
  {
    if rows != [] {
      var init, last := rows[..|rows| - 1], rows[|rows| - 1];
      OldRegsMembers(init);
      assert forall e :: e in rows <==> e in init || e == last;
    }
  }

  /** The state of save's loop: the table's entries, what is left of old_regs, and the next fresh id. */
  datatype Pass = Pass(entries: seq<BlockRegistration>, pending: map<string, BlockRegistration>, next: nat)

  /** Saving a changed row: the row with its id takes the new value. */
  function Replace(entries: seq<BlockRegistration>, e: BlockRegistration): (r: seq<BlockRegistration>)
    ensures |r| == |entries|
  {
    seq(|entries|, k requires 0 <= k < |entries| => if entries[k].id == e.id then e else entries[k])
  }

  /**
   * One field of the loop: an old entry for the block's text takes the
   * field's code and leaves old_regs; otherwise a new entry is created.
   */
  function Step(p: Pass, regId: nat, want: (string, string)): Pass
  {
    if want.0 in p.pending then
      Pass(Replace(p.entries, p.pending[want.0].(attendance := want.1)), p.pending - {want.0}, p.next)
    else
      Pass(p.entries + [BlockRegistration(p.next, want.0, regId, want.1)], p.pending, p.next + 1)
  }

  function Steps(p: Pass, regId: nat, wants: seq<(string, string)>): Pass
  {
    if wants == [] then p
    else Step(Steps(p, regId, wants[..|wants| - 1]), regId, wants[|wants| - 1])
  }

  /** Deleting the rows whose ids are given. */
  function Delete(entries: seq<BlockRegistration>, ids: set<nat>): (r: seq<BlockRegistration>)
    ensures |r| <= |entries|
  {
    if entries == [] then []
    else (if entries[0].id in ids then [] else [entries[0]]) + Delete(entries[1..], ids)
  }

  /** What is left is exactly the entries whose ids are not given. */
  lemma {:induction false} DeleteMembers(entries: seq<BlockRegistration>, ids: set<nat>)
    ensures forall e :: e in Delete(entries, ids) <==> e in entries && e.id !in ids
  {
    if entries != [] {
      DeleteMembers(entries[1..], ids);
      assert forall e :: e in entries <==> e == entries[0] || e in entries[1..];
    }
  }

  function PendingIds(pending: map<string, BlockRegistration>): set<nat>
  {
    set t | t in pending :: pending[t].id
  }

  /**
   * The entries table after save, and the next fresh id: the loop over the
   * wanted (block text, code) pairs, then the deletion of what is left in
   * old_regs.
   */
  function Reconcile(entries: seq<BlockRegistration>, regId: nat, wants: seq<(string, string)>, next: nat)
    : (seq<BlockRegistration>, nat)
  {
    var p := Steps(Pass(entries, OldRegs(RowsOf(regId, entries)), next), regId, wants);
    (Delete(p.entries, PendingIds(p.pending)), p.next)
  }

  /** The (block text, code) pairs of the block fields; the first key that names no block raises. */
  function Wants(fields: seq<Field>, blocks: seq<TimeBlock>): Result<seq<(string, string)>>
  {
    if fields == [] then Ok([])
    else
      match Wants(fields[..|fields| - 1], blocks)
      case Err(e) => Err(e)
      case Ok(wants) =>
        match KeyText(fields[|fields| - 1].key, blocks)
        case Err(e) => Err(e)
        case Ok(text) => Ok(wants + [(text, fields[|fields| - 1].initial)])
  }

  /** Once a key has raised, the later fields do not matter. */
  lemma {:induction false} WantsErrorStands(fields: seq<Field>, blocks: seq<TimeBlock>, k: nat)
    requires k <= |fields| && Wants(fields[..k], blocks).Err?
    ensures Wants(fields, blocks) == Wants(fields[..k], blocks)
    decreases |fields| - k
  {
    if k < |fields| {
      assert fields[..k + 1][..k] == fields[..k];
      assert Wants(fields[..k + 1], blocks) == Wants(fields[..k], blocks);
      WantsErrorStands(fields, blocks, k + 1);
    } else {
      assert fields[..k] == fields;
    }
  }

  // The table as it is before save, and the form, as the lemmas below assume them.

  /** Entry ids are primary keys. */
  predicate UniqueIds(es: seq<BlockRegistration>)
  {
    forall i, j :: 0 <= i < j < |es| ==> es[i].id != es[j].id
  }

  /** Every stored id is below the next one the table hands out. */
  predicate IdsBelow(es: seq<BlockRegistration>, next: nat)
  {
    forall i :: 0 <= i < |es| ==> es[i].id < next
  }

  /** The registration has at most one entry per block text. */
  predicate DistinctTexts(es: seq<BlockRegistration>, regId: nat)
  {
    forall i, j ::
      (0 <= i < |es| && 0 <= j < |es| && es[i].registration == regId && es[j].registration == regId &&
       es[i].timeBlock == es[j].timeBlock) ==> i == j
  }

  /** The form names each block text at most once. */
  predicate DistinctWants(wants: seq<(string, string)>)
  {
    forall i, j :: 0 <= i < j < |wants| ==> wants[i].0 != wants[j].0
  }

  /** The code wanted for each block text. */
  function WantMap(wants: seq<(string, string)>): (m: map<string, string>)
    ensures |m| <= |wants|
  {
    if wants == [] then map[]
    else WantMap(wants[..|wants| - 1])[wants[|wants| - 1].0 := wants[|wants| - 1].1]
  }

  /** The map has a key for each text the form names, and no other. */
  lemma {:induction false} WantMapKeys(wants: seq<(string, string)>)
    ensures forall t :: t in WantMap(wants) <==> exists i :: 0 <= i < |wants| && wants[i].0 == t
  {
    if wants != [] {
      var init := wants[..|wants| - 1];
      WantMapKeys(init);
      assert forall i :: 0 <= i < |init| ==> init[i] == wants[i];
    }
  }

  /** With each text named once, the map holds each pair of the form. */
  lemma {:induction false} WantMapHolds(wants: seq<(string, string)>)
    requires DistinctWants(wants)
    ensures forall i :: 0 <= i < |wants| ==> wants[i].0 in WantMap(wants) && WantMap(wants)[wants[i].0] == wants[i].1
  {
    if wants != [] {
      var init := wants[..|wants| - 1];
      assert forall i :: 0 <= i < |init| ==> init[i] == wants[i];
      WantMapHolds(init);
    }
  }

  /** The stored entries with the wanted codes written into the registration's rows. */
  function Patch(es: seq<BlockRegistration>, regId: nat, m: map<string, string>): (r: seq<BlockRegistration>)
    ensures |r| == |es|
  {
    seq(|es|, k requires 0 <= k < |es| =>
      if es[k].registration == regId && es[k].timeBlock in m then es[k].(attendance := m[es[k].timeBlock])
      else es[k])
  }

  /**
   * The rows save creates: one per wanted text that has no old entry, in
   * form order, with consecutive fresh ids.
   */
  function NewRows(wants: seq<(string, string)>, oldTexts: set<string>, regId: nat, next: nat)
    : (nr: seq<BlockRegistration>)
    ensures |nr| <= |wants|
  {
    if wants == [] then []
    else
      var nr := NewRows(wants[..|wants| - 1], oldTexts, regId, next);
      var w := wants[|wants| - 1];
      if w.0 in oldTexts then nr else nr + [BlockRegistration(next + |nr|, w.0, regId, w.1)]
  }

  /** NewRows on one more pair: one more row exactly when its text has no old entry. */
  lemma NewRowsSnoc(wants: seq<(string, string)>, oldTexts: set<string>, regId: nat, next: nat)
    requires wants != []
    ensures var nr0, w := NewRows(wants[..|wants| - 1], oldTexts, regId, next), wants[|wants| - 1];
            NewRows(wants, oldTexts, regId, next) ==
              if w.0 in oldTexts then nr0 else nr0 + [BlockRegistration(next + |nr0|, w.0, regId, w.1)]
  {
  }

  /** The created rows belong to the registration and take consecutive ids from next on. */
  lemma {:induction false} NewRowsIds(wants: seq<(string, string)>, oldTexts: set<string>, regId: nat, next: nat)
    ensures forall k :: 0 <= k < |NewRows(wants, oldTexts, regId, next)| ==>
              NewRows(wants, oldTexts, regId, next)[k].id == next + k &&
              NewRows(wants, oldTexts, regId, next)[k].registration == regId
  {
    if wants != [] {
      var init, w := wants[..|wants| - 1], wants[|wants| - 1];
      NewRowsIds(init, oldTexts, regId, next);
      var nr0 := NewRows(init, oldTexts, regId, next);
      assert NewRows(wants, oldTexts, regId, next) ==
        if w.0 in oldTexts then nr0 else nr0 + [BlockRegistration(next + |nr0|, w.0, regId, w.1)];
    }
  }

  /** Each row carries a wanted text that has no old entry, with the code wanted for it. */
  predicate FromWants(nr: seq<BlockRegistration>, wants: seq<(string, string)>, oldTexts: set<string>)
  {
    forall k :: 0 <= k < |nr| ==> nr[k].timeBlock !in oldTexts && Wanted(nr[k], wants)
  }

  predicate Wanted(row: BlockRegistration, wants: seq<(string, string)>)
  {
    exists i :: 0 <= i < |wants| && wants[i].0 == row.timeBlock && wants[i].1 == row.attendance
  }

  /** Each created row carries a wanted text that has no old entry, with its code. */
  lemma {:induction false} NewRowsFromWants(wants: seq<(string, string)>, oldTexts: set<string>, regId: nat, next: nat)
    ensures FromWants(NewRows(wants, oldTexts, regId, next), wants, oldTexts)
  {
    if wants != [] {
      var init, w := wants[..|wants| - 1], wants[|wants| - 1];
      NewRowsFromWants(init, oldTexts, regId, next);
      var nr0 := NewRows(init, oldTexts, regId, next);
      var nr := NewRows(wants, oldTexts, regId, next);
      assert nr == if w.0 in oldTexts then nr0 else nr0 + [BlockRegistration(next + |nr0|, w.0, regId, w.1)];
      forall k | 0 <= k < |nr| ensures nr[k].timeBlock !in oldTexts && Wanted(nr[k], wants) {
        if k < |nr0| {
          assert nr[k] == nr0[k];
          assert Wanted(nr0[k], init);
          var i :| 0 <= i < |init| && init[i].0 == nr0[k].timeBlock && init[i].1 == nr0[k].attendance;
          assert wants[i] == init[i];
        } else {
          assert wants[|wants| - 1] == w;
        }
      }
    }
  }

  /** Every wanted text with no old entry has a row with its code. */
  predicate CoversWants(nr: seq<BlockRegistration>, wants: seq<(string, string)>, oldTexts: set<string>)
  {
    forall i :: 0 <= i < |wants| && wants[i].0 !in oldTexts ==>
      exists k :: 0 <= k < |nr| && nr[k].timeBlock == wants[i].0 && nr[k].attendance == wants[i].1
  }

  /** No two rows carry the same text. */
  predicate RowTextsDistinct(nr: seq<BlockRegistration>)
  {
    forall k1, k2 :: 0 <= k1 < k2 < |nr| ==> nr[k1].timeBlock != nr[k2].timeBlock
  }

  /** Every wanted text with no old entry gets a row with its code. */
  lemma {:induction false} NewRowsCoverWants(wants: seq<(string, string)>, oldTexts: set<string>, regId: nat, next: nat)
    ensures CoversWants(NewRows(wants, oldTexts, regId, next), wants, oldTexts)
  {
    if wants != [] {
      var init, w := wants[..|wants| - 1], wants[|wants| - 1];
      NewRowsCoverWants(init, oldTexts, regId, next);
      var nr0 := NewRows(init, oldTexts, regId, next);
      var nr := NewRows(wants, oldTexts, regId, next);
      assert nr == if w.0 in oldTexts then nr0 else nr0 + [BlockRegistration(next + |nr0|, w.0, regId, w.1)];
      forall i | 0 <= i < |wants| && wants[i].0 !in oldTexts
        ensures exists k :: 0 <= k < |nr| && nr[k].timeBlock == wants[i].0 && nr[k].attendance == wants[i].1
      {
        if i < |init| {
          assert init[i] == wants[i];
          var k :| 0 <= k < |nr0| && nr0[k].timeBlock == init[i].0 && nr0[k].attendance == init[i].1;
          assert nr[k] == nr0[k];
        } else {
          assert nr[|nr0|].timeBlock == w.0;
        }
      }
    }
  }

  /** With each text named once, no two created rows share a text. */
  lemma {:induction false} NewRowsDistinct(wants: seq<(string, string)>, oldTexts: set<string>, regId: nat, next: nat)
    requires DistinctWants(wants)
    ensures RowTextsDistinct(NewRows(wants, oldTexts, regId, next))
  {
    if wants != [] {
      var init, w := wants[..|wants| - 1], wants[|wants| - 1];
      assert DistinctWants(init) by {
        assert forall i :: 0 <= i < |init| ==> init[i] == wants[i];
      }
      NewRowsDistinct(init, oldTexts, regId, next);
      var nr0 := NewRows(init, oldTexts, regId, next);
      var nr := NewRows(wants, oldTexts, regId, next);
      assert nr == if w.0 in oldTexts then nr0 else nr0 + [BlockRegistration(next + |nr0|, w.0, regId, w.1)];
      if w.0 !in oldTexts {
        NewRowsFromWants(init, oldTexts, regId, next);
        forall k | 0 <= k < |nr0| ensures nr0[k].timeBlock != w.0 {
          assert Wanted(nr0[k], init);
          var i :| 0 <= i < |init| && init[i].0 == nr0[k].timeBlock && init[i].1 == nr0[k].attendance;
          assert init[i] == wants[i];
        }
        forall k1, k2 | 0 <= k1 < k2 < |nr| ensures nr[k1].timeBlock != nr[k2].timeBlock {
          if k2 == |nr0| {
            assert nr[k1] == nr0[k1] && nr[k2].timeBlock == w.0;
          } else {
            assert nr[k1] == nr0[k1] && nr[k2] == nr0[k2];
          }
        }
      }
    }
  }

  /** With one entry per text, old_regs maps each text of the registration to its one entry. */
  lemma OldRegsOfDistinct(es: seq<BlockRegistration>, regId: nat)
    requires DistinctTexts(es, regId)
    ensures var old0 := OldRegs(RowsOf(regId, es));
            forall k :: 0 <= k < |es| && es[k].registration == regId ==>
              es[k].timeBlock in old0 && old0[es[k].timeBlock] == es[k]
    ensures var old0 := OldRegs(RowsOf(regId, es));
            forall t :: t in old0 ==> exists k :: 0 <= k < |es| && es[k] == old0[t] && es[k].registration == regId
  {
    var old0 := OldRegs(RowsOf(regId, es));
    RowsOfMembers(regId, es);
    OldRegsMembers(RowsOf(regId, es));
    forall k | 0 <= k < |es| && es[k].registration == regId
      ensures es[k].timeBlock in old0 && old0[es[k].timeBlock] == es[k]
    {
      assert es[k] in RowsOf(regId, es);
      var e := old0[es[k].timeBlock];
      var j :| 0 <= j < |es| && es[j] == e;
    }
    forall t | t in old0 ensures exists k :: 0 <= k < |es| && es[k] == old0[t] && es[k].registration == regId {
      var k :| 0 <= k < |es| && es[k] == old0[t];
    }
  }

  /** Saving an old entry with a new code is the same as patching that code in. */
  lemma ReplaceOnPatch(es: seq<BlockRegistration>, regId: nat, m0: map<string, string>,
                       nr0: seq<BlockRegistration>, w: (string, string), k: nat, next: nat)
    requires UniqueIds(es) && IdsBelow(es, next) && DistinctTexts(es, regId)
    requires k < |es| && es[k].registration == regId && es[k].timeBlock == w.0 && w.0 !in m0
    requires forall j :: 0 <= j < |nr0| ==> nr0[j].id >= next
    ensures Replace(Patch(es, regId, m0) + nr0, es[k].(attendance := w.1)) == Patch(es, regId, m0[w.0 := w.1]) + nr0
  {
    var a := Patch(es, regId, m0) + nr0;
    var b := Patch(es, regId, m0[w.0 := w.1]) + nr0;
    var r := Replace(a, es[k].(attendance := w.1));
    forall j | 0 <= j < |a| ensures r[j] == b[j] {
      if j < |es| {
        if j != k {
          assert es[j].id != es[k].id by {
            if j < k { assert es[j].id != es[k].id; } else { assert es[k].id != es[j].id; }
          }
          assert !(es[j].registration == regId && es[j].timeBlock == w.0);
        }
      } else {
        assert a[j] == nr0[j - |es|] && b[j] == nr0[j - |es|];
        assert es[k].id < next;
      }
    }
  }

  /** A text no old entry carries leaves the patched entries as they are. */
  lemma PatchUntouched(es: seq<BlockRegistration>, regId: nat, m0: map<string, string>, w: (string, string))
    requires forall k :: 0 <= k < |es| && es[k].registration == regId ==> es[k].timeBlock != w.0
    ensures Patch(es, regId, m0[w.0 := w.1]) == Patch(es, regId, m0)
  {
  }

  /**
   * The loop in closed form: after the wanted pairs, the stored entries carry
   * the wanted codes, the rows for texts without an entry follow them, and
   * old_regs holds the entries whose text the form does not name.
   */
  function Closed(es: seq<BlockRegistration>, regId: nat, wants: seq<(string, string)>, next: nat): Pass
  {
    var old0 := OldRegs(RowsOf(regId, es));
    var nr := NewRows(wants, old0.Keys, regId, next);
    Pass(Patch(es, regId, WantMap(wants)) + nr, old0 - WantMap(wants).Keys, next + |nr|)
  }

  /** A text that is new to the form is not yet in the map of wanted codes. */
  lemma LastWantIsNew(wants: seq<(string, string)>)
    requires wants != [] && DistinctWants(wants)
    ensures wants[|wants| - 1].0 !in WantMap(wants[..|wants| - 1])
    ensures DistinctWants(wants[..|wants| - 1])
  {
    var init, w := wants[..|wants| - 1], wants[|wants| - 1];
    WantMapKeys(init);
    assert forall i :: 0 <= i < |init| ==> init[i] == wants[i];
    assert forall i :: 0 <= i < |init| ==> init[i].0 != w.0;
  }

  /** One step of the loop on a field whose text has an old entry. */
  lemma StepClosedOld(es: seq<BlockRegistration>, regId: nat, wants: seq<(string, string)>, next: nat)
    requires UniqueIds(es) && IdsBelow(es, next) && DistinctTexts(es, regId)
    requires wants != [] && DistinctWants(wants)
    requires wants[|wants| - 1].0 in OldRegs(RowsOf(regId, es))
    ensures Step(Closed(es, regId, wants[..|wants| - 1], next), regId, wants[|wants| - 1]) == Closed(es, regId, wants, next)
  {
    var init, w := wants[..|wants| - 1], wants[|wants| - 1];
    var old0 := OldRegs(RowsOf(regId, es));
    var m0, m := WantMap(init), WantMap(wants);
    var nr0 := NewRows(init, old0.Keys, regId, next);
    var p0 := Closed(es, regId, init, next);
    var k := OldEntryIndex(es, regId, w.0);
    var lhs, rhs := Step(p0, regId, w), Closed(es, regId, wants, next);
    LastWantIsNew(wants);
    assert m == m0[w.0 := w.1];
    assert NewRows(wants, old0.Keys, regId, next) == nr0;
    assert lhs.entries == rhs.entries by {
      assert w.0 in p0.pending && p0.pending[w.0] == es[k];
      assert lhs.entries == Replace(Patch(es, regId, m0) + nr0, es[k].(attendance := w.1));
      NewRowsIds(init, old0.Keys, regId, next);
      ReplaceOnPatch(es, regId, m0, nr0, w, k, next);
    }
    assert lhs.pending == (old0 - m0.Keys) - {w.0};
    DropOneMore(old0, m0, w.0, w.1);
  }

  /** Dropping the keys of a map and then one more key drops the keys of the extended map. */
  lemma DropOneMore<V, W>(table: map<string, V>, dropped: map<string, W>, t: string, x: W)
    ensures (table - dropped.Keys) - {t} == table - dropped[t := x].Keys
  {
    assert dropped[t := x].Keys == dropped.Keys + {t};
  }

  /** The position of the registration's old entry for a text. */
  lemma OldEntryIndex(es: seq<BlockRegistration>, regId: nat, t: string) returns (k: nat)
    requires DistinctTexts(es, regId) && t in OldRegs(RowsOf(regId, es))
    ensures k < |es| && es[k] == OldRegs(RowsOf(regId, es))[t]
    ensures es[k].registration == regId && es[k].timeBlock == t
  {
    var e := OldRegs(RowsOf(regId, es))[t];
    RowsOfMembers(regId, es);
    OldRegsMembers(RowsOf(regId, es));
    assert e in es;
    var j :| 0 <= j < |es| && es[j] == e;
    k := j;
  }

  /** One step of the loop on a field whose text has no old entry. */
  lemma StepClosedNew(es: seq<BlockRegistration>, regId: nat, wants: seq<(string, string)>, next: nat)
    requires DistinctTexts(es, regId)
    requires wants != [] && DistinctWants(wants)
    requires wants[|wants| - 1].0 !in OldRegs(RowsOf(regId, es))
    ensures Step(Closed(es, regId, wants[..|wants| - 1], next), regId, wants[|wants| - 1]) == Closed(es, regId, wants, next)
  {
    var init, w := wants[..|wants| - 1], wants[|wants| - 1];
    var old0 := OldRegs(RowsOf(regId, es));
    var m0, m := WantMap(init), WantMap(wants);
    var nr0, nr := NewRows(init, old0.Keys, regId, next), NewRows(wants, old0.Keys, regId, next);
    var patched, pending := Patch(es, regId, m0), old0 - m0.Keys;
    var row := BlockRegistration(next + |nr0|, w.0, regId, w.1);
    assert nr == nr0 + [row] by {
      NewRowsSnoc(wants, old0.Keys, regId, next);
    }
    assert Patch(es, regId, m) == patched by {
      assert m == m0[w.0 := w.1];
      PatchIgnoresNewText(es, regId, m0, w);
    }
    assert old0 - m.Keys == pending && w.0 !in pending by {
      LastWantIsNew(wants);
    }
    assert Closed(es, regId, init, next) == Pass(patched + nr0, pending, next + |nr0|) by {
      ClosedUnfold(es, regId, init, next);
    }
    assert Closed(es, regId, wants, next) == Pass(patched + nr, pending, next + |nr|) by {
      ClosedUnfold(es, regId, wants, next);
    }
    StepOnNewAssembles(patched, nr0, nr, pending, next, regId, w);
  }

  /** Appending the new row to the closed form of the shorter loop gives that of the longer one. */
  lemma StepOnNewAssembles(patched: seq<BlockRegistration>, nr0: seq<BlockRegistration>, nr: seq<BlockRegistration>,
                           pending: map<string, BlockRegistration>, next: nat, regId: nat, w: (string, string))
    requires nr == nr0 + [BlockRegistration(next + |nr0|, w.0, regId, w.1)] && w.0 !in pending
    ensures Step(Pass(patched + nr0, pending, next + |nr0|), regId, w) == Pass(patched + nr, pending, next + |nr|)
  {
    assert (patched + nr0) + [BlockRegistration(next + |nr0|, w.0, regId, w.1)] == patched + nr;
  }

  /** The closed form written out. */
  lemma ClosedUnfold(es: seq<BlockRegistration>, regId: nat, wants: seq<(string, string)>, next: nat)
    ensures var old0 := OldRegs(RowsOf(regId, es));
            var nr := NewRows(wants, old0.Keys, regId, next);
            Closed(es, regId, wants, next) == Pass(Patch(es, regId, WantMap(wants)) + nr, old0 - WantMap(wants).Keys, next + |nr|)
  {
  }

  /** Wanting a code for a text the registration has no entry for patches nothing more. */
  lemma PatchIgnoresNewText(es: seq<BlockRegistration>, regId: nat, m0: map<string, string>, w: (string, string))
    requires w.0 !in OldRegs(RowsOf(regId, es))
    ensures Patch(es, regId, m0[w.0 := w.1]) == Patch(es, regId, m0)
  {
    RowsOfMembers(regId, es);
    OldRegsMembers(RowsOf(regId, es));
    forall k | 0 <= k < |es| && es[k].registration == regId ensures es[k].timeBlock != w.0 {
      assert es[k] in RowsOf(regId, es);
    }
    PatchUntouched(es, regId, m0, w);
  }

  /** The loop computes its closed form. */
  lemma {:induction false} StepsClosed(es: seq<BlockRegistration>, regId: nat, wants: seq<(string, string)>, next: nat)
    requires UniqueIds(es) && IdsBelow(es, next) && DistinctTexts(es, regId) && DistinctWants(wants)
    ensures Steps(Pass(es, OldRegs(RowsOf(regId, es)), next), regId, wants) == Closed(es, regId, wants, next)
  {
    var old0 := OldRegs(RowsOf(regId, es));
    if wants == [] {
      assert Patch(es, regId, map[]) == es;
      assert old0 - {} == old0;
    } else {
      LastWantIsNew(wants);
      StepsClosed(es, regId, wants[..|wants| - 1], next);
      if wants[|wants| - 1].0 in old0 {
        StepClosedOld(es, regId, wants, next);
      } else {
        StepClosedNew(es, regId, wants, next);
      }
    }
  }

  /**
   * What the lemmas about save assume: entry ids are unique and below the
   * next id, the registration has at most one entry per block text, and the
   * form names each block text once.
   */
  predicate Reconcilable(es: seq<BlockRegistration>, regId: nat, wants: seq<(string, string)>, next: nat)
  {
    UniqueIds(es) && IdsBelow(es, next) && DistinctTexts(es, regId) && DistinctWants(wants)
  }

  /** The ids save deletes: those of the registration's entries whose text the form does not name. */
  lemma ObsoleteIds(es: seq<BlockRegistration>, regId: nat, m: map<string, string>)
    requires DistinctTexts(es, regId)
    ensures var old0 := OldRegs(RowsOf(regId, es));
            forall id :: id in PendingIds(old0 - m.Keys) <==>
              exists k :: 0 <= k < |es| && es[k].registration == regId && es[k].timeBlock !in m && es[k].id == id
  {
    var old0 := OldRegs(RowsOf(regId, es));
    OldRegsOfDistinct(es, regId);
    forall id | id in PendingIds(old0 - m.Keys)
      ensures exists k :: 0 <= k < |es| && es[k].registration == regId && es[k].timeBlock !in m && es[k].id == id
    {
      var t :| t in old0 - m.Keys && (old0 - m.Keys)[t].id == id;
      var k := OldEntryIndex(es, regId, t);
    }
    forall k | 0 <= k < |es| && es[k].registration == regId && es[k].timeBlock !in m
      ensures es[k].id in PendingIds(old0 - m.Keys)
    {
      var t := es[k].timeBlock;
      assert t in old0 - m.Keys && (old0 - m.Keys)[t] == es[k];
    }
  }

  /** save's table in closed form: the patched entries and the created rows, less the obsolete ids. */
  lemma ReconcileClosed(es: seq<BlockRegistration>, regId: nat, wants: seq<(string, string)>, next: nat)
    requires Reconcilable(es, regId, wants, next)
    ensures var c := Closed(es, regId, wants, next);
            Reconcile(es, regId, wants, next) == (Delete(c.entries, PendingIds(c.pending)), c.next)
  {
    StepsClosed(es, regId, wants, next);
    ReconcileOfPass(es, regId, wants, next, Closed(es, regId, wants, next));
  }

  /** save's table once its loop is known to end in the pass p. */
  lemma ReconcileOfPass(es: seq<BlockRegistration>, regId: nat, wants: seq<(string, string)>, next: nat, p: Pass)
    requires Steps(Pass(es, OldRegs(RowsOf(regId, es)), next), regId, wants) == p
    ensures Reconcile(es, regId, wants, next) == (Delete(p.entries, PendingIds(p.pending)), p.next)
  {
  }

  /** An entry is in the table after save exactly when it is in the closed form and its id was not left in old_regs. */
  lemma InReconcile(es: seq<BlockRegistration>, regId: nat, wants: seq<(string, string)>, next: nat, e: BlockRegistration)
    requires Reconcilable(es, regId, wants, next)
    ensures var old0, m := OldRegs(RowsOf(regId, es)), WantMap(wants);
            e in Reconcile(es, regId, wants, next).0 <==>
              e in Patch(es, regId, m) + NewRows(wants, old0.Keys, regId, next) && e.id !in PendingIds(old0 - m.Keys)
  {
    var old0, m := OldRegs(RowsOf(regId, es)), WantMap(wants);
    var c := Closed(es, regId, wants, next);
    ReconcileClosed(es, regId, wants, next);
    assert c.entries == Patch(es, regId, m) + NewRows(wants, old0.Keys, regId, next) && c.pending == old0 - m.Keys;
    DeleteMembers(c.entries, PendingIds(c.pending));
  }

  /** The id of a stored entry that is another registration's, or whose text the form names, is not deleted. */
  lemma KeptId(es: seq<BlockRegistration>, regId: nat, m: map<string, string>, k: nat)
    requires UniqueIds(es) && DistinctTexts(es, regId)
    requires k < |es| && (es[k].registration != regId || es[k].timeBlock in m)
    ensures es[k].id !in PendingIds(OldRegs(RowsOf(regId, es)) - m.Keys)
  {
    ObsoleteIds(es, regId, m);
    forall j | 0 <= j < |es| && es[j].registration == regId && es[j].timeBlock !in m ensures es[j].id != es[k].id {
      assert j != k;
      if j < k { assert es[j].id != es[k].id; } else { assert es[k].id != es[j].id; }
    }
  }

  /** The id of an entry of the registration whose text the form does not name is deleted. */
  lemma DroppedId(es: seq<BlockRegistration>, regId: nat, m: map<string, string>, k: nat)
    requires DistinctTexts(es, regId)
    requires k < |es| && es[k].registration == regId && es[k].timeBlock !in m
    ensures es[k].id in PendingIds(OldRegs(RowsOf(regId, es)) - m.Keys)
  {
    ObsoleteIds(es, regId, m);
  }

  /** A fresh id is never deleted. */
  lemma FreshId(es: seq<BlockRegistration>, regId: nat, m: map<string, string>, next: nat, id: nat)
    requires IdsBelow(es, next) && DistinctTexts(es, regId) && next <= id
    ensures id !in PendingIds(OldRegs(RowsOf(regId, es)) - m.Keys)
  {
    ObsoleteIds(es, regId, m);
    forall j | 0 <= j < |es| ensures es[j].id != id {
      assert es[j].id < next;
    }
  }

  /** save leaves the entries of every other registration exactly as they were. */
  lemma ReconcileKeepsOthers(es: seq<BlockRegistration>, regId: nat, wants: seq<(string, string)>, next: nat)
    requires Reconcilable(es, regId, wants, next)
    ensures forall e: BlockRegistration :: e.registration != regId ==> (e in Reconcile(es, regId, wants, next).0 <==> e in es)
  {
    var old0, m := OldRegs(RowsOf(regId, es)), WantMap(wants);
    var nr := NewRows(wants, old0.Keys, regId, next);
    var patched := Patch(es, regId, m);
    forall e: BlockRegistration | e.registration != regId ensures e in Reconcile(es, regId, wants, next).0 <==> e in es {
      InReconcile(es, regId, wants, next, e);
      if e in patched + nr {
        assert e !in nr by { NewRowsIds(wants, old0.Keys, regId, next); }
        var k :| 0 <= k < |patched| && patched[k] == e;
        assert es[k] == e;
      }
      if e in es {
        var k :| 0 <= k < |es| && es[k] == e;
        assert (patched + nr)[k] == e;
        KeptId(es, regId, m, k);
      }
    }
  }

  /** A wanted text with no old entry gets a row of its own, with the code and a fresh id. */
  lemma ReconcileAddsNew(es: seq<BlockRegistration>, regId: nat, wants: seq<(string, string)>, next: nat)
    requires Reconcilable(es, regId, wants, next)
    ensures forall i :: 0 <= i < |wants| && wants[i].0 !in OldRegs(RowsOf(regId, es)) ==>
              exists e :: e in Reconcile(es, regId, wants, next).0 && e.registration == regId &&
                          e.timeBlock == wants[i].0 && e.attendance == wants[i].1 && e.id >= next
  {
    var old0, m := OldRegs(RowsOf(regId, es)), WantMap(wants);
    var nr := NewRows(wants, old0.Keys, regId, next);
    var patched := Patch(es, regId, m);
    forall i | 0 <= i < |wants| && wants[i].0 !in old0
      ensures exists e :: e in Reconcile(es, regId, wants, next).0 && e.registration == regId &&
                          e.timeBlock == wants[i].0 && e.attendance == wants[i].1 && e.id >= next
    {
      NewRowsCoverWants(wants, old0.Keys, regId, next);
      var q :| 0 <= q < |nr| && nr[q].timeBlock == wants[i].0 && nr[q].attendance == wants[i].1;
      NewRowsIds(wants, old0.Keys, regId, next);
      FreshId(es, regId, m, next, nr[q].id);
      assert (patched + nr)[|patched| + q] == nr[q];
      InReconcile(es, regId, wants, next, nr[q]);
    }
  }

  /** Every (block text, code) pair of the form has a row of the registration after save. */
  lemma ReconcileCoversForm(es: seq<BlockRegistration>, regId: nat, wants: seq<(string, string)>, next: nat)
    requires Reconcilable(es, regId, wants, next)
    ensures forall i :: 0 <= i < |wants| ==>
              exists e :: e in Reconcile(es, regId, wants, next).0 && e.registration == regId &&
                          e.timeBlock == wants[i].0 && e.attendance == wants[i].1
  {
    forall i | 0 <= i < |wants|
      ensures exists e :: e in Reconcile(es, regId, wants, next).0 && e.registration == regId &&
                          e.timeBlock == wants[i].0 && e.attendance == wants[i].1
    {
      ReconcileKeepsIds(es, regId, wants, next);
      ReconcileAddsNew(es, regId, wants, next);
      if wants[i].0 in OldRegs(RowsOf(regId, es)) {
        var k := OldEntryIndex(es, regId, wants[i].0);
        var e := es[k].(attendance := wants[i].1);
        assert e in Reconcile(es, regId, wants, next).0 && e.registration == regId &&
               e.timeBlock == wants[i].0 && e.attendance == wants[i].1;
      } else {
        var e :| e in Reconcile(es, regId, wants, next).0 && e.registration == regId &&
                 e.timeBlock == wants[i].0 && e.attendance == wants[i].1 && e.id >= next;
      }
    }
    var F := Reconcile(es, regId, wants, next).0;
    assert forall i :: 0 <= i < |wants| ==>
              exists e :: e in F && e.registration == regId &&
                          e.timeBlock == wants[i].0 && e.attendance == wants[i].1;
  }

  /** An old entry whose text the form names keeps its id and takes the wanted code. */
  lemma ReconcileKeepsIds(es: seq<BlockRegistration>, regId: nat, wants: seq<(string, string)>, next: nat)
    requires Reconcilable(es, regId, wants, next)
    ensures forall k, i :: 0 <= k < |es| && 0 <= i < |wants| && es[k].registration == regId &&
                           es[k].timeBlock == wants[i].0 ==>
              es[k].(attendance := wants[i].1) in Reconcile(es, regId, wants, next).0
  {
    var old0, m := OldRegs(RowsOf(regId, es)), WantMap(wants);
    var nr := NewRows(wants, old0.Keys, regId, next);
    var patched := Patch(es, regId, m);
    forall k, i | 0 <= k < |es| && 0 <= i < |wants| && es[k].registration == regId && es[k].timeBlock == wants[i].0
      ensures es[k].(attendance := wants[i].1) in Reconcile(es, regId, wants, next).0
    {
      var e := patched[k];
      assert es[k].timeBlock in m && m[es[k].timeBlock] == wants[i].1 by { WantMapHolds(wants); }
      assert e == es[k].(attendance := wants[i].1);
      KeptId(es, regId, m, k);
      assert (patched + nr)[k] == e;
      InReconcile(es, regId, wants, next, e);
    }
  }

  /** After save, every row of the registration carries a text and code the form asked for. */
  lemma ReconcileOnlyWanted(es: seq<BlockRegistration>, regId: nat, wants: seq<(string, string)>, next: nat)
    requires Reconcilable(es, regId, wants, next)
    ensures forall e :: e in Reconcile(es, regId, wants, next).0 && e.registration == regId ==> Wanted(e, wants)
  {
    forall e | e in Reconcile(es, regId, wants, next).0 && e.registration == regId ensures Wanted(e, wants) {
      RowAfterSaveWanted(es, regId, wants, next, e);
    }
  }

  /** One row of the registration after save: either a patched old entry or a created row. */
  lemma RowAfterSaveWanted(es: seq<BlockRegistration>, regId: nat, wants: seq<(string, string)>, next: nat,
                           e: BlockRegistration)
    requires Reconcilable(es, regId, wants, next)
    requires e in Reconcile(es, regId, wants, next).0 && e.registration == regId
    ensures Wanted(e, wants)
  {
    var old0, m := OldRegs(RowsOf(regId, es)), WantMap(wants);
    var nr := NewRows(wants, old0.Keys, regId, next);
    var patched := Patch(es, regId, m);
    InReconcile(es, regId, wants, next, e);
    if e in patched {
      var k :| 0 <= k < |patched| && patched[k] == e;
      assert es[k].registration == regId;
      if es[k].timeBlock !in m {
        DroppedId(es, regId, m, k);
        assert false;
      }
      var t := es[k].timeBlock;
      assert exists i :: 0 <= i < |wants| && wants[i].0 == t by { WantMapKeys(wants); }
      var i :| 0 <= i < |wants| && wants[i].0 == t;
      assert m[t] == wants[i].1 by { WantMapHolds(wants); }
      assert e.attendance == wants[i].1;
    } else {
      NewRowsFromWants(wants, old0.Keys, regId, next);
      var q :| 0 <= q < |nr| && nr[q] == e;
    }
  }

  /** Deleting rows keeps ids unique. */
  lemma {:induction false} DeleteKeepsUniqueIds(s: seq<BlockRegistration>, ids: set<nat>)
    requires UniqueIds(s)
    ensures UniqueIds(Delete(s, ids))
  {
    if s != [] {
      var rest := s[1..];
      assert UniqueIds(rest) by {
        forall i, j | 0 <= i < j < |rest| ensures rest[i].id != rest[j].id {
          assert rest[i] == s[i + 1] && rest[j] == s[j + 1];
        }
      }
      DeleteKeepsUniqueIds(rest, ids);
      var r := Delete(rest, ids);
      if s[0].id !in ids {
        assert forall j :: 0 <= j < |r| ==> s[0].id != r[j].id by {
          DeleteMembers(rest, ids);
          forall j | 0 <= j < |r| ensures s[0].id != r[j].id {
            assert r[j] in rest;
            var q :| 0 <= q < |rest| && rest[q] == r[j];
            assert s[q + 1] == r[j];
          }
        }
        var d := Delete(s, ids);
        assert d == [s[0]] + r;
        forall i, j | 0 <= i < j < |d| ensures d[i].id != d[j].id {
          if i == 0 { assert d[j] == r[j - 1]; } else { assert d[i] == r[i - 1] && d[j] == r[j - 1]; }
        }
      }
    }
  }

  /** Deleting rows keeps one row per text for the registration. */
  lemma {:induction false} DeleteKeepsDistinctTexts(s: seq<BlockRegistration>, ids: set<nat>, regId: nat)
    requires DistinctTexts(s, regId)
    ensures DistinctTexts(Delete(s, ids), regId)
  {
    if s != [] {
      var rest := s[1..];
      assert DistinctTexts(rest, regId) by {
        forall i, j | 0 <= i < |rest| && 0 <= j < |rest| && rest[i].registration == regId &&
                      rest[j].registration == regId && rest[i].timeBlock == rest[j].timeBlock
          ensures i == j
        {
          assert rest[i] == s[i + 1] && rest[j] == s[j + 1];
        }
      }
      DeleteKeepsDistinctTexts(rest, ids, regId);
      var r := Delete(rest, ids);
      if s[0].id !in ids {
        assert forall j :: 0 <= j < |r| && s[0].registration == regId && r[j].registration == regId ==>
                 s[0].timeBlock != r[j].timeBlock by {
          DeleteMembers(rest, ids);
          forall j | 0 <= j < |r| && s[0].registration == regId && r[j].registration == regId
            ensures s[0].timeBlock != r[j].timeBlock
          {
            assert r[j] in rest;
            var q :| 0 <= q < |rest| && rest[q] == r[j];
            assert s[q + 1] == r[j];
          }
        }
        var d := Delete(s, ids);
        assert d == [s[0]] + r;
        forall i, j | 0 <= i < |d| && 0 <= j < |d| && i != j && d[i].registration == regId &&
                      d[j].registration == regId
          ensures d[i].timeBlock != d[j].timeBlock
        {
          if i == 0 {
            assert d[j] == r[j - 1];
          } else if j == 0 {
            assert d[i] == r[i - 1];
          } else {
            assert d[i] == r[i - 1] && d[j] == r[j - 1];
          }
        }
      }
    }
  }

  /** Before the deletion, the patched entries and the created rows have unique ids below the new next id. */
  lemma ClosedIds(es: seq<BlockRegistration>, regId: nat, wants: seq<(string, string)>, next: nat)
    requires Reconcilable(es, regId, wants, next)
    ensures UniqueIds(Closed(es, regId, wants, next).entries)
    ensures IdsBelow(Closed(es, regId, wants, next).entries, Closed(es, regId, wants, next).next)
  {
    var old0 := OldRegs(RowsOf(regId, es));
    var nr := NewRows(wants, old0.Keys, regId, next);
    var patched := Patch(es, regId, WantMap(wants));
    assert UniqueIds(patched) && IdsBelow(patched, next) by {
      assert forall k :: 0 <= k < |patched| ==> patched[k].id == es[k].id;
    }
    assert forall k :: 0 <= k < |nr| ==> nr[k].id == next + k by {
      NewRowsIds(wants, old0.Keys, regId, next);
    }
    AppendFreshIds(patched, nr, next);
    assert Closed(es, regId, wants, next) == Pass(patched + nr, old0 - WantMap(wants).Keys, next + |nr|) by {
      ClosedUnfold(es, regId, wants, next);
    }
  }

  /** Rows with unique ids below next, followed by rows numbered from next on, have unique ids. */
  lemma AppendFreshIds(a: seq<BlockRegistration>, b: seq<BlockRegistration>, next: nat)
    requires UniqueIds(a) && IdsBelow(a, next)
    requires forall k :: 0 <= k < |b| ==> b[k].id == next + k
    ensures UniqueIds(a + b) && IdsBelow(a + b, next + |b|)
  {
    var ab := a + b;
    forall i, j | 0 <= i < j < |ab| ensures ab[i].id != ab[j].id {
      if j < |a| {
        assert ab[i] == a[i] && ab[j] == a[j];
      } else if i < |a| {
        assert ab[i] == a[i] && ab[j] == b[j - |a|];
      } else {
        assert ab[i] == b[i - |a|] && ab[j] == b[j - |a|];
      }
    }
    forall i | 0 <= i < |ab| ensures ab[i].id < next + |b| {
      if i < |a| { assert ab[i] == a[i]; } else { assert ab[i] == b[i - |a|]; }
    }
  }

  /** Two runs of rows with one text each per registration, whose texts fall on either side of a set, append to one. */
  lemma AppendDistinctTexts(a: seq<BlockRegistration>, b: seq<BlockRegistration>, regId: nat, texts: set<string>)
    requires DistinctTexts(a, regId) && DistinctTexts(b, regId)
    requires forall i :: 0 <= i < |a| && a[i].registration == regId ==> a[i].timeBlock in texts
    requires forall i :: 0 <= i < |b| ==> b[i].timeBlock !in texts
    ensures DistinctTexts(a + b, regId)
  {
    var ab := a + b;
    forall i, j | 0 <= i < |ab| && 0 <= j < |ab| && i != j && ab[i].registration == regId &&
                  ab[j].registration == regId
      ensures ab[i].timeBlock != ab[j].timeBlock
    {
      if i < |a| && j < |a| {
        assert ab[i] == a[i] && ab[j] == a[j];
      } else if i < |a| {
        assert ab[i] == a[i] && ab[j] == b[j - |a|];
      } else if j < |a| {
        assert ab[j] == a[j] && ab[i] == b[i - |a|];
      } else {
        assert ab[i] == b[i - |a|] && ab[j] == b[j - |a|];
      }
    }
  }

  /** Before the deletion, the registration has one row per block text. */
  lemma ClosedDistinctTexts(es: seq<BlockRegistration>, regId: nat, wants: seq<(string, string)>, next: nat)
    requires Reconcilable(es, regId, wants, next)
    ensures DistinctTexts(Closed(es, regId, wants, next).entries, regId)
  {
    var old0 := OldRegs(RowsOf(regId, es));
    var nr := NewRows(wants, old0.Keys, regId, next);
    var patched := Patch(es, regId, WantMap(wants));
    assert DistinctTexts(patched, regId) by {
      forall i, j | 0 <= i < |patched| && 0 <= j < |patched| && i != j && patched[i].registration == regId &&
                    patched[j].registration == regId
        ensures patched[i].timeBlock != patched[j].timeBlock
      {
        assert patched[i].timeBlock == es[i].timeBlock && patched[j].timeBlock == es[j].timeBlock;
      }
    }
    assert forall i :: 0 <= i < |patched| && patched[i].registration == regId ==> patched[i].timeBlock in old0.Keys by {
      OldRegsOfDistinct(es, regId);
    }
    assert DistinctTexts(nr, regId) by {
      NewRowsDistinct(wants, old0.Keys, regId, next);
      forall i, j | 0 <= i < |nr| && 0 <= j < |nr| && i != j ensures nr[i].timeBlock != nr[j].timeBlock {
        if i < j {
          assert nr[i].timeBlock != nr[j].timeBlock;
        } else {
          assert nr[j].timeBlock != nr[i].timeBlock;
        }
      }
    }
    assert forall i :: 0 <= i < |nr| ==> nr[i].timeBlock !in old0.Keys by {
      NewRowsFromWants(wants, old0.Keys, regId, next);
    }
    AppendDistinctTexts(patched, nr, regId, old0.Keys);
    assert Closed(es, regId, wants, next).entries == patched + nr by {
      ClosedUnfold(es, regId, wants, next);
    }
  }

  /** Deleting rows keeps every id below a bound. */
  lemma DeleteKeepsIdsBelow(s: seq<BlockRegistration>, ids: set<nat>, bound: nat)
    requires IdsBelow(s, bound)
    ensures IdsBelow(Delete(s, ids), bound)
  {
    var d := Delete(s, ids);
    DeleteMembers(s, ids);
    forall i | 0 <= i < |d| ensures d[i].id < bound {
      assert d[i] in s;
    }
  }

  /** save keeps ids unique and below the next id, and one entry per block text for the registration. */
  lemma ReconcileKeepsTable(es: seq<BlockRegistration>, regId: nat, wants: seq<(string, string)>, next: nat)
    requires Reconcilable(es, regId, wants, next)
    ensures UniqueIds(Reconcile(es, regId, wants, next).0)
    ensures IdsBelow(Reconcile(es, regId, wants, next).0, Reconcile(es, regId, wants, next).1)
    ensures DistinctTexts(Reconcile(es, regId, wants, next).0, regId)
    ensures next <= Reconcile(es, regId, wants, next).1
  {
    var p := Closed(es, regId, wants, next);
    assert Reconcile(es, regId, wants, next) == (Delete(p.entries, PendingIds(p.pending)), p.next) by {
      ReconcileClosed(es, regId, wants, next);
    }
    assert UniqueIds(p.entries) && IdsBelow(p.entries, p.next) && next <= p.next by {
      ClosedIds(es, regId, wants, next);
    }
    assert DistinctTexts(p.entries, regId) by {
      ClosedDistinctTexts(es, regId, wants, next);
    }
    DeleteKeepsUniqueIds(p.entries, PendingIds(p.pending));
    DeleteKeepsDistinctTexts(p.entries, PendingIds(p.pending), regId);
    DeleteKeepsIdsBelow(p.entries, PendingIds(p.pending), p.next);
  }

  /** Deleting no ids leaves the entries as they are. */
  lemma {:induction false} DeleteNone(s: seq<BlockRegistration>)
    ensures Delete(s, {}) == s
  {
    if s != [] {
      DeleteNone(s[1..]);
      assert s == [s[0]] + s[1..];
    }
  }

  /** Deleting two sets of ids one after the other deletes their union. */
  lemma {:induction false} DeleteTwice(s: seq<BlockRegistration>, a: set<nat>, b: set<nat>)
    ensures Delete(Delete(s, a), b) == Delete(s, a + b)
  {
    if s != [] {
      DeleteTwice(s[1..], a, b);
      if s[0].id !in a {
        var d := Delete(s, a);
        assert d == [s[0]] + Delete(s[1..], a);
        assert d != [] && d[0] == s[0] && d[1..] == Delete(s[1..], a);
        assert Delete(d, b) == (if s[0].id in b then [] else [s[0]]) + Delete(d[1..], b);
        assert Delete(s, a + b) == (if s[0].id in b then [] else [s[0]]) + Delete(s[1..], a + b);
      } else {
        assert Delete(s, a) == Delete(s[1..], a);
        assert Delete(s, a + b) == Delete(s[1..], a + b);
      }
    }
  }

  /** The pairs a form built from the blocks submits: each scheduled block's text with its field's code. */
  function FormPairs(blocks: seq<TimeBlock>, data: map<string, string>): (ps: seq<(string, string)>)
    ensures |ps| == |Utils.ScheduledBlocks(blocks)|
  {
    var scheduled := Utils.ScheduledBlocks(blocks);
    seq(|scheduled|, i requires 0 <= i < |scheduled| => (scheduled[i].text, FieldFor(scheduled[i], data).initial))
  }

  /** With unique block ids, the key of a field reads back as its block's text. */
  lemma FieldKeyText(blocks: seq<TimeBlock>, b: TimeBlock, data: map<string, string>)
    requires UniqueBlockIds(blocks) && b in blocks
    ensures KeyText(FieldFor(b, data).key, blocks) == Ok(b.text)
  {
    KeyTextOfBlockKey(b.id, blocks);
    var found := FirstBlock(WithId(b.id), blocks);
    SameIdSameBlock(blocks, found.value, b);
  }

  /** One more field of a form built from the blocks reads back as one more pair. */
  lemma FormWantsStep(blocks: seq<TimeBlock>, data: map<string, string>, n: nat)
    requires UniqueBlockIds(blocks) && n < |FormFields(blocks, data)|
    requires Wants(FormFields(blocks, data)[..n], blocks) == Ok(FormPairs(blocks, data)[..n])
    ensures Wants(FormFields(blocks, data)[..n + 1], blocks) == Ok(FormPairs(blocks, data)[..n + 1])
  {
    var scheduled := Utils.ScheduledBlocks(blocks);
    var fs := FormFields(blocks, data);
    var pairs := FormPairs(blocks, data);
    assert scheduled[n] in blocks;
    FieldKeyText(blocks, scheduled[n], data);
    assert fs[..n + 1][..n] == fs[..n] && fs[..n + 1][n] == fs[n];
    PrefixSnoc(pairs, n);
  }

  /** A prefix one longer is the prefix and the next element. */
  lemma PrefixSnoc<T>(s: seq<T>, n: nat)
    requires n < |s|
    ensures s[..n + 1] == s[..n] + [s[n]]
  {
  }

  /** Each field of a form built from the blocks reads back as its block's text and its initial code. */
  lemma FormWants(blocks: seq<TimeBlock>, data: map<string, string>)
    requires UniqueBlockIds(blocks)
    ensures Wants(FormFields(blocks, data), blocks) == Ok(FormPairs(blocks, data))
  {
    var fs := FormFields(blocks, data);
    var pairs := FormPairs(blocks, data);
    for n := 0 to |fs|
      invariant Wants(fs[..n], blocks) == Ok(pairs[..n])
    {
      FormWantsStep(blocks, data, n);
    }
    assert fs[..|fs|] == fs && pairs[..|pairs|] == pairs;
  }

  /** The one row of a registration with one entry per text is the last one carrying its text. */
  lemma LastAttendanceOfDistinct(f: seq<BlockRegistration>, regId: nat, e: BlockRegistration)
    requires DistinctTexts(f, regId) && e in f && e.registration == regId
    ensures LastAttendance(e.timeBlock, RowsOf(regId, f)) == Some(e.attendance)
  {
    var rows := RowsOf(regId, f);
    RowsOfMembers(regId, f);
    assert e in rows;
    var r := LastAttendance(e.timeBlock, rows);
    LastAttendanceFound(e.timeBlock, rows);
    var q :| 0 <= q < |rows| && rows[q] == e;
    assert r.Some?;
    var j :| 0 <= j < |rows| && rows[j].timeBlock == e.timeBlock && rows[j].attendance == r.value;
    assert rows[j] in f;
    var a :| 0 <= a < |f| && f[a] == rows[j];
    var c :| 0 <= c < |f| && f[c] == e;
    assert a == c;
  }

  /**
   * Saving a form built from the blocks and opening the form again offers
   * each scheduled block with the code that was saved for it.
   */
  lemma SavedFormReopens(es: seq<BlockRegistration>, regId: nat, blocks: seq<TimeBlock>, data: map<string, string>,
                         next: nat, b: TimeBlock)
    requires Reconcilable(es, regId, FormPairs(blocks, data), next) && UniqueBlockIds(blocks)
    requires b in blocks && Utils.Scheduled(b) && FirstBlock(WithText(b.text), blocks) == Some(b)
    ensures var f := Reconcile(es, regId, FormPairs(blocks, data), next).0;
            FieldFor(b, InitialData(RowsOf(regId, f), blocks)).initial == FieldFor(b, data).initial
  {
    var pairs := FormPairs(blocks, data);
    var f := Reconcile(es, regId, pairs, next).0;
    var scheduled := Utils.ScheduledBlocks(blocks);
    var i := Utils.IndexOf(b, scheduled);
    assert pairs[i] == (b.text, FieldFor(b, data).initial);
    ReconcileCoversForm(es, regId, pairs, next);
    var e :| e in f && e.registration == regId && e.timeBlock == b.text && e.attendance == FieldFor(b, data).initial;
    ReconcileKeepsTable(es, regId, pairs, next);
    LastAttendanceOfDistinct(f, regId, e);
    StoredInitial(RowsOf(regId, f), blocks, b);
  }

  // ---------------------------------------------------------------------
  // AttendanceForm

  /** The registration the form edits: the first of the user's registrations for the con. */
  function FirstRegistration(mine: seq<Registration>): Option<Registration>
  {
    if mine == [] then None else Some(mine[0])
  }

  /** The form data: what was submitted, else the stored entries of the registration, else nothing. */
  function StartData(data: Option<map<string, string>>, registration: Option<Registration>,
                     entries: seq<BlockRegistration>, blocks: seq<TimeBlock>): map<string, string>
  {
    if data.Some? then data.value
    else if registration.Some? then InitialData(RowsOf(registration.value.id, entries), blocks)
    else map[]
  }

  /**
   * The registration save writes, stamped with the time of the save: the
   * form's own, or a new one for the current con that pays by the first
   * payment option. Finding no current con, or no payment option, raises.
   */
  function Staged(current: Option<Registration>, user: User, cons: seq<ConInfo>, payments: seq<string>,
                  id: nat, now: int): (r: Result<Registration>)
    ensures current.Some? ==> r == Ok(current.value.(lastUpdated := now))
    ensures current.None? && r.Ok? ==>
              r.value.id == id && r.value.user == user && r.value.registrationDate == now &&
              r.value.lastUpdated == now && !r.value.paymentReceived &&
              Utils.GetCurrentCon(cons).Ok? && r.value.convention == Utils.GetCurrentCon(cons).value.id &&
              payments != [] && r.value.payment == payments[0]
    ensures current.None? && r.Err? ==>
              (Utils.GetCurrentCon(cons).Err? && r.error == Utils.GetCurrentCon(cons).error) ||
              (Utils.GetCurrentCon(cons).Ok? && payments == [] && r.error == IndexError)
  {
    if current.Some? then Ok(current.value.(lastUpdated := now))
    else
      match Utils.GetCurrentCon(cons)
      case Err(e) => Err(e)
      case Ok(con) =>
        if payments == [] then Err(IndexError)
        else Ok(Registration(id, user, con.id, now, now, payments[0], false))
  }

  /** Registration.save(): the row with the registration's id takes its value, or it is added. */
  function Upsert(regs: seq<Registration>, r: Registration): (out: seq<Registration>)
    ensures r in out
    ensures forall x :: x in out && x.id == r.id ==> x == r
    ensures forall x :: x in out && x.id != r.id ==> x in regs
    ensures forall x :: x in regs && x.id != r.id ==> x in out
  {
    if exists i :: 0 <= i < |regs| && regs[i].id == r.id then
      var j :| 0 <= j < |regs| && regs[j].id == r.id;
      var out := seq(|regs|, i requires 0 <= i < |regs| => if regs[i].id == r.id then r else regs[i]);
      assert out[j] == r;
      assert forall i :: 0 <= i < |regs| && regs[i].id != r.id ==> out[i] == regs[i];
      out
    else regs + [r]
  }

  /** The revision comment of a save. */
  function Comment(newEntry: bool): string
  {
    "Form Submission - " + (if newEntry then "Initial" else "Update")
  }

  /** The subject of the mail a save sends to the registration list. */
  function Subject(newEntry: bool, name: string): string
  {
    (if newEntry then "Initial" else "Updated") + " Registration for " + name
  }

  /** The comment and the subject tell a first registration from an update, and the subject names the user. */
  lemma NoticeWording(name: string)
    ensures Comment(true) != Comment(false)
    ensures Subject(true, name) != Subject(false, name)
    ensures Subject(true, name)[|Subject(true, name)| - |name|..] == name
    ensures Subject(false, name)[|Subject(false, name)| - |name|..] == name
  {
    assert Comment(true)[18] == 'I' && Comment(false)[18] == 'U';
    assert Subject(true, name)[0] == 'I' && Subject(false, name)[0] == 'U';
  }

  /** What a save reports: the revision comment, the mail subject and the lines of the mail's summary. */
  datatype Notice = Notice(comment: string, subject: string, attending: seq<string>)

  /** The notice of a save, once the summary of the user's registration is read back. */
  function Mailed(newEntry: bool, name: string, summary: Result<seq<string>>): Result<Notice>
  {
    match summary
    case Err(e) => Err(e)
    case Ok(lines) => Ok(Notice(Comment(newEntry), Subject(newEntry, name), lines))
  }

  /** The loop that fills old_regs: each text mapped to the last of the registration's rows carrying it. */
  method CollectOldRegs(rows: seq<BlockRegistration>) returns (oldRegs: map<string, BlockRegistration>)
    ensures oldRegs == OldRegs(rows)
  {
    oldRegs := map[];
    for i := 0 to |rows|
      invariant oldRegs == OldRegs(rows[..i])
    {
      assert rows[..i + 1][..i] == rows[..i];
      oldRegs := oldRegs[rows[i].timeBlock := rows[i]];
    }
    assert rows[..|rows|] == rows;
  }

  /**
   * The loop over the block fields: each field's key is read back as a block
   * text; an old entry for that text takes the field's code and leaves
   * old_regs, otherwise a new entry is created. A key that names no block raises.
   */
  method ApplyFields(start: Pass, regId: nat, blockFields: seq<Field>, blocks: seq<TimeBlock>) returns (r: Result<Pass>)
    ensures r.Err? <==> Wants(blockFields, blocks).Err?
    ensures r.Err? ==> r.error == Wants(blockFields, blocks).error
    ensures r.Ok? ==> r.value == Steps(start, regId, Wants(blockFields, blocks).value)
  {
    var entries, pending, nextId := start.entries, start.pending, start.next;
    ghost var wants: seq<(string, string)> := [];
    for i := 0 to |blockFields|
      invariant Wants(blockFields[..i], blocks) == Ok(wants)
      invariant Steps(start, regId, wants) == Pass(entries, pending, nextId)
    {
      var field := blockFields[i];
      assert blockFields[..i + 1][..i] == blockFields[..i] && blockFields[..i + 1][i] == field;
      var text := KeyText(field.key, blocks);
      if text.Err? {
        WantsErrorStands(blockFields, blocks, i + 1);
        return Err(text.error);
      }
      ghost var want := (text.value, field.initial);
      assert (wants + [want])[..|wants|] == wants;
      if text.value in pending {
        entries := Replace(entries, pending[text.value].(attendance := field.initial));
        pending := pending - {text.value};
      } else {
        entries := entries + [BlockRegistration(nextId, text.value, regId, field.initial)];
        nextId := nextId + 1;
      }
      wants := wants + [want];
    }
    assert blockFields[..|blockFields|] == blockFields;
    return Ok(Pass(entries, pending, nextId));
  }

  /** Taking one text out of old_regs takes at most its entry's id out of the ids to delete. */
  lemma PendingIdsDrop(pending: map<string, BlockRegistration>, t: string)
    requires t in pending
    ensures PendingIds(pending) == PendingIds(pending - {t}) + {pending[t].id}
  {
    var rest := pending - {t};
    forall id | id in PendingIds(pending) ensures id in PendingIds(rest) + {pending[t].id} {
      var u :| u in pending && pending[u].id == id;
      if u != t {
        assert u in rest && rest[u].id == id;
      }
    }
    forall id | id in PendingIds(rest) ensures id in PendingIds(pending) {
      var u :| u in rest && rest[u].id == id;
      assert u in pending && pending[u].id == id;
    }
  }

  /** The loop that deletes what is left in old_regs, one entry at a time. */
  method DeleteObsolete(entries: seq<BlockRegistration>, obsolete: map<string, BlockRegistration>)
    returns (left: seq<BlockRegistration>)
    ensures left == Delete(entries, PendingIds(obsolete))
  {
    left := entries;
    ghost var deleted: set<nat> := {};
    DeleteNone(entries);
    var remaining := obsolete;
    while remaining != map[]
      invariant left == Delete(entries, deleted)
      invariant deleted + PendingIds(remaining) == PendingIds(obsolete)
      decreases |remaining|
    {
      var t :| t in remaining;
      var id := remaining[t].id;
      DeleteTwice(entries, deleted, {id});
      left := Delete(left, {id});
      PendingIdsDrop(remaining, t);
      deleted := deleted + {id};
      remaining := remaining - {t};
    }
    assert PendingIds(remaining) == {};
  }

  /** The form data read back from stored entries: each entry's code under the key of the block named by its text. */
  method ReadBack(rows: seq<BlockRegistration>, blocks: seq<TimeBlock>) returns (data: map<string, string>)
    ensures data == InitialData(rows, blocks)
  {
    data := map[];
    for i := 0 to |rows|
      invariant data == InitialData(rows[..i], blocks)
    {
      assert rows[..i + 1][..i] == rows[..i];
      var found := FirstBlock(WithText(rows[i].timeBlock), blocks);
      if found.Some? {
        data := data[BlockKey(found.value.id) := rows[i].attendance];
      }
    }
    assert rows[..|rows|] == rows;
  }

  /** One choice field per scheduled block, in block order, initially the code the data holds for it or "Y". */
  method BlockFields(blocks: seq<TimeBlock>, data: map<string, string>) returns (fs: seq<Field>)
    ensures fs == FormFields(blocks, data)
  {
    var scheduled := Utils.ScheduledBlocks(blocks);
    fs := [];
    for i := 0 to |scheduled|
      invariant |fs| == i && forall k :: 0 <= k < i ==> fs[k] == FieldFor(scheduled[k], data)
    {
      fs := fs + [FieldFor(scheduled[i], data)];
    }
  }

  /**
   * The attendance form of a user for the current con: one field per
   * scheduled block, the registration it edits if the user has one, and save.
   */
  class AttendanceForm {
    var user: User
    var userFriendly: string
    var convention: nat
    var registration: Option<Registration>
    var fields: seq<Field>

    /**
     * __init__: the user's registration for the con, the form data (submitted,
     * or read back from the registration's entries) and one field per
     * scheduled block, initially the code the data holds for it or "Y".
     */
    constructor (user: User, convention: nat, regs: seq<Registration>, entries: seq<BlockRegistration>,
                 blocks: seq<TimeBlock>, data: Option<map<string, string>>)
      ensures this.user == user && this.convention == convention
      ensures userFriendly == Utils.FriendlyUsername(user)
      ensures registration == FirstRegistration(Utils.RegistrationsOf(Some(user), convention, regs))
      ensures fields == FormFields(blocks, StartData(data, registration, entries, blocks))
    {
      var mine := Utils.RegistrationsOf(Some(user), convention, regs);
      var reg := FirstRegistration(mine);
      var formData: map<string, string>;
      if data.Some? {
        formData := data.value;
      } else if reg.Some? {
        formData := ReadBack(RowsOf(reg.value.id, entries), blocks);
      } else {
        formData := map[];
      }
      var fs := BlockFields(blocks, formData);
      this.user := user;
      this.userFriendly := Utils.FriendlyUsername(user);
      this.convention := convention;
      this.registration := reg;
      this.fields := fs;
    }

    /**
     * save: stamps (or creates) the registration, then in one transaction
     * writes the registration, brings its entries in line with the block
     * fields and deletes the entries the form no longer names; a field key
     * that names no block rolls the transaction back. Then the summary of the
     * user's registration is read back for the mail.
     */
    method Save(db: Database, cons: seq<ConInfo>, payments: seq<string>, blocks: seq<TimeBlock>, now: int)
      returns (r: Result<Notice>)
      modifies this, db
      ensures user == old(user) && userFriendly == old(userFriendly) && convention == old(convention)
      ensures fields == old(fields)
      ensures var staged := Staged(old(registration), user, cons, payments, old(db.nextRegistrationId), now);
              staged.Err? ==> r == Err(staged.error) && registration == old(registration) && unchanged(db)
      ensures var staged := Staged(old(registration), user, cons, payments, old(db.nextRegistrationId), now);
              var wants := Wants(TimeBlockFields(fields), blocks);
              staged.Ok? && wants.Err? ==> r == Err(wants.error) && registration == Some(staged.value) && unchanged(db)
      ensures var staged := Staged(old(registration), user, cons, payments, old(db.nextRegistrationId), now);
              var wants := Wants(TimeBlockFields(fields), blocks);
              staged.Ok? && wants.Ok? ==>
                registration == Some(staged.value) &&
                db.registrations == Upsert(old(db.registrations), staged.value) &&
                db.nextRegistrationId == old(db.nextRegistrationId) + (if old(registration).None? then 1 else 0) &&
                (db.entries, db.nextEntryId) == Reconcile(old(db.entries), staged.value.id, wants.value, old(db.nextEntryId)) &&
                r == Mailed(old(registration).None?, userFriendly,
                            Utils.RegistrationSummary(Some(user), cons, db.registrations, db.entries, blocks))
    {
      var newEntry := registration.None?;
      var reg: Registration;
      if newEntry {
        var con := Utils.GetCurrentCon(cons);
        if con.Err? {
          return Err(con.error);
        }
        if payments == [] {
          return Err(IndexError);
        }
        reg := Registration(db.nextRegistrationId, user, con.value.id, now, now, payments[0], false);
      } else {
        reg := registration.value;
      }
      var comment := Comment(newEntry);
      reg := reg.(lastUpdated := now);
      registration := Some(reg);
      var registrations := Upsert(db.registrations, reg);
      var nextRegistrationId := if newEntry then db.nextRegistrationId + 1 else db.nextRegistrationId;

      var rows := RowsOf(reg.id, db.entries);
      var oldRegs := CollectOldRegs(rows);
      var applied := ApplyFields(Pass(db.entries, oldRegs, db.nextEntryId), reg.id, TimeBlockFields(fields), blocks);
      if applied.Err? {
        return Err(applied.error);
      }
      var entries := DeleteObsolete(applied.value.entries, applied.value.pending);
      var nextId := applied.value.next;

      db.registrations := registrations;
      db.nextRegistrationId := nextRegistrationId;
      db.entries := entries;
      db.nextEntryId := nextId;

      var attending := Utils.GetRegistration(Some(user), cons, db.registrations, db.entries, blocks);
      if attending.Err? {
        return Err(attending.error);
      }
      return Ok(Notice(comment, Subject(newEntry, userFriendly), attending.value));
    }
  }

  /**
   * Opening the attendance form: __init__ first looks up the current con,
   * whose ValueError escapes the form; with a con, the form is built for it.
   */
  method OpenAttendanceForm(user: User, cons: seq<ConInfo>, regs: seq<Registration>, entries: seq<BlockRegistration>,
                            blocks: seq<TimeBlock>, data: Option<map<string, string>>)
    returns (r: Result<AttendanceForm>)
    ensures r.Err? <==> Utils.GetCurrentCon(cons).Err?
    ensures r.Err? ==> r.error == Utils.GetCurrentCon(cons).error && r.error.ValueError?
    ensures r.Ok? ==>
              var con := Utils.GetCurrentCon(cons).value;
              fresh(r.value) && r.value.user == user && r.value.convention == con.id &&
              con in cons &&
              r.value.registration == FirstRegistration(Utils.RegistrationsOf(Some(user), con.id, regs))
  {
    var con := Utils.GetCurrentCon(cons);
    if con.Err? {
      return Err(con.error);
    }
    Utils.CurrentConIsStored(cons);
    var form := new AttendanceForm(user, con.value.id, regs, entries, blocks, data);
    return Ok(form);
  }
}
