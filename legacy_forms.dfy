/**
 * The older code base's attendance form (wsgi/shadowcon/con/forms.py): one
 * choice field per scheduled block plus a free-text "Test" field, and a save
 * that only ever adds entries. Its clean is the same rule as Forms.Clean and
 * its mail subject the same wording as Forms.Subject.
 */
module LegacyForms {
  import opened Wrappers
  import opened Text
  import opened Models
  import Utils
  import Forms
  import LegacyModels
  import LegacyUtils

  /** The free-text field always added after the block fields; it has no label and starts empty. */
  const TestField: Forms.Field := Forms.Field("Test", "", "")

  /** The form's fields: one per scheduled block, in block order, then the "Test" field. */
  function FormFields(blocks: seq<TimeBlock>, data: map<string, string>): (fs: seq<Forms.Field>)
    ensures |fs| == |Utils.ScheduledBlocks(blocks)| + 1
    ensures fs[..|fs| - 1] == Forms.FormFields(blocks, data) && fs[|fs| - 1] == TestField
  {
    Forms.FormFields(blocks, data) + [TestField]
  }

  /** time_block_fields drops the "Test" field and keeps every block field, in order. */
  lemma TimeBlockFieldsDropTest(blocks: seq<TimeBlock>, data: map<string, string>)
    ensures Forms.TimeBlockFields(FormFields(blocks, data)) == Forms.FormFields(blocks, data)
    ensures TestField !in Forms.TimeBlockFields(FormFields(blocks, data))
  {
    var fs := FormFields(blocks, data);
    assert !StartsWith(TestField.key, Forms.BlockPrefix) by { assert TestField.key[0] != Forms.BlockPrefix[0]; }
    assert Forms.TimeBlockFields(fs) == Forms.TimeBlockFields(fs[..|fs| - 1]);
    Forms.FormFieldsAreBlockFields(blocks, data);
  }

  /**
   * The form data: the submitted data, or else the codes stored for the
   * blocks in the entries of the user's registrations.
   */
  function StartData(data: Option<map<string, string>>, registration: seq<LegacyModels.Registration>,
                     entries: seq<BlockRegistration>, blocks: seq<TimeBlock>): map<string, string>
  {
    if data.Some? then data.value
    else if registration != [] then Forms.InitialData(LegacyModels.EntriesOf(registration, entries), blocks)
    else map[]
  }

  /**
   * Without submitted data, a block's field starts at the code of the last
   * entry stored for it across the user's registrations, or "Y" without one.
   */
  lemma StoredOrYes(registration: seq<LegacyModels.Registration>, entries: seq<BlockRegistration>,
                    blocks: seq<TimeBlock>, b: TimeBlock)
    requires Forms.UniqueBlockIds(blocks) && b in blocks && Forms.FirstBlock(Forms.WithText(b.text), blocks) == Some(b)
    ensures Forms.FieldFor(b, StartData(None, registration, entries, blocks)).initial ==
              match Forms.LastAttendance(b.text, LegacyModels.EntriesOf(registration, entries))
              case Some(code) => code
              case None => AttendanceYes
  {
    Forms.StoredInitial(LegacyModels.EntriesOf(registration, entries), blocks, b);
  }

  // ---------------------------------------------------------------------
  // save

  /**
   * The entries save creates for the block fields, in field order with
   * consecutive ids from `next`, and the error of the first field whose key
   * names no block; the entries before that field are already stored.
   */
  function SaveRows(regId: nat, fields: seq<Forms.Field>, blocks: seq<TimeBlock>, next: nat)
    : (s: (seq<BlockRegistration>, Option<Error>))
    ensures |s.0| <= |fields|
  {
    if fields == [] then ([], None)
    else
      var (rows, err) := SaveRows(regId, fields[..|fields| - 1], blocks, next);
      if err.Some? then (rows, err)
      else
        var field := fields[|fields| - 1];
        match Forms.KeyText(field.key, blocks)
        case Err(e) => (rows, Some(e))
        case Ok(text) => (rows + [BlockRegistration(next + |rows|, text, regId, field.initial)], None)
  }

  /** One new entry of the registration per (block text, code) pair, with consecutive ids. */
  function Created(regId: nat, wants: seq<(string, string)>, next: nat): (rows: seq<BlockRegistration>)
    ensures |rows| == |wants|
  {
    seq(|wants|, k requires 0 <= k < |wants| => BlockRegistration(next + k, wants[k].0, regId, wants[k].1))
  }

  /**
   * save fails exactly where reading the fields back as (block text, code)
   * pairs fails, and otherwise creates one entry per pair.
   */
  lemma {:induction false} SaveRowsFollowWants(regId: nat, fields: seq<Forms.Field>, blocks: seq<TimeBlock>, next: nat)
    ensures SaveRows(regId, fields, blocks, next).1.None? <==> Forms.Wants(fields, blocks).Ok?
    ensures Forms.Wants(fields, blocks).Err? ==>
              SaveRows(regId, fields, blocks, next).1 == Some(Forms.Wants(fields, blocks).error)
    ensures Forms.Wants(fields, blocks).Ok? ==>
              SaveRows(regId, fields, blocks, next).0 == Created(regId, Forms.Wants(fields, blocks).value, next)
  {
    if fields != [] {
      var init := fields[..|fields| - 1];
      SaveRowsFollowWants(regId, init, blocks, next);
      if Forms.Wants(init, blocks).Ok? {
        var wants := Forms.Wants(init, blocks).value;
        var field := fields[|fields| - 1];
        var text := Forms.KeyText(field.key, blocks);
        if text.Ok? {
          assert Created(regId, wants + [(text.value, field.initial)], next) ==
                 Created(regId, wants, next) + [BlockRegistration(next + |wants|, text.value, regId, field.initial)];
        }
      }
    }
  }

  /**
   * On a form built from blocks with unique ids, save creates exactly one
   * entry per scheduled block, in block order: the block's text and its
   * field's initial code, attached to the registration.
   */
  lemma SavesOneEntryPerBlock(regId: nat, blocks: seq<TimeBlock>, data: map<string, string>, next: nat)
    requires Forms.UniqueBlockIds(blocks)
    ensures var s := SaveRows(regId, Forms.TimeBlockFields(FormFields(blocks, data)), blocks, next);
            var scheduled := Utils.ScheduledBlocks(blocks);
            s.1 == None && |s.0| == |scheduled| &&
            forall k :: 0 <= k < |scheduled| ==>
              s.0[k] == BlockRegistration(next + k, scheduled[k].text, regId, Forms.FieldFor(scheduled[k], data).initial)
  {
    TimeBlockFieldsDropTest(blocks, data);
    Forms.FormWants(blocks, data);
    SaveRowsFollowWants(regId, Forms.FormFields(blocks, data), blocks, next);
  }

  /**
   * The older AttendanceForm: the user, the name its mails use, and its
   * fields. The registration date it formats for display is not modelled.
   */
  class AttendanceForm {
    var user: User
    var userFriendly: string
    var fields: seq<Forms.Field>

    /**
     * __init__: the form data (submitted, or read back from the entries of
     * the user's registrations), one field per scheduled block, initially the
     * code the data holds for it or "Y", then the "Test" field.
     */
    constructor (registration: seq<LegacyModels.Registration>, user: User, entries: seq<BlockRegistration>,
                 blocks: seq<TimeBlock>, data: Option<map<string, string>>)
      ensures this.user == user && userFriendly == LegacyUtils.FriendlyUsername(user)
      ensures fields == FormFields(blocks, StartData(data, registration, entries, blocks))
    {
      var formData: map<string, string>;
      if data.Some? {
        formData := data.value;
      } else if registration != [] {
        formData := Forms.ReadBack(LegacyModels.EntriesOf(registration, entries), blocks);
      } else {
        formData := map[];
      }
      var fs := Forms.BlockFields(blocks, formData);
      fs := fs + [TestField];
      this.user := user;
      this.userFriendly := LegacyUtils.FriendlyUsername(user);
      this.fields := fs;
    }

    /**
     * save(registration, new_entry): stores one entry per block field, one
     * at a time and without deleting anything; a key that names no block
     * raises, leaving the entries already stored. Then the notice goes out;
     * its subject is the result.
     */
    method Save(db: LegacyModels.Database, registration: LegacyModels.Registration, newEntry: bool,
                blocks: seq<TimeBlock>) returns (r: Result<string>)
      modifies db
      ensures db.registrations == old(db.registrations) && db.nextRegistrationId == old(db.nextRegistrationId)
      ensures var s := SaveRows(registration.id, Forms.TimeBlockFields(fields), blocks, old(db.nextEntryId));
              db.entries == old(db.entries) + s.0 && db.nextEntryId == old(db.nextEntryId) + |s.0| &&
              r == if s.1.Some? then Err(s.1.value) else Ok(Forms.Subject(newEntry, userFriendly))
    {
      var blockFields := Forms.TimeBlockFields(fields);
      ghost var entries0, next0 := db.entries, db.nextEntryId;
      ghost var created: seq<BlockRegistration> := [];
      for i := 0 to |blockFields|
        invariant SaveRows(registration.id, blockFields[..i], blocks, next0) == (created, None)
        invariant db.entries == entries0 + created && db.nextEntryId == next0 + |created|
        invariant db.registrations == old(db.registrations) && db.nextRegistrationId == old(db.nextRegistrationId)
      {
        var text := Forms.KeyText(blockFields[i].key, blocks);
        SaveRowsStep(registration.id, blockFields, blocks, next0, i, created);
        if text.Err? {
          return Err(text.error);
        }
        var entry := BlockRegistration(db.nextEntryId, text.value, registration.id, blockFields[i].initial);
        db.entries := db.entries + [entry];
        db.nextEntryId := db.nextEntryId + 1;
        created := created + [entry];
      }
      assert blockFields[..|blockFields|] == blockFields;
      return Ok(Forms.Subject(newEntry, userFriendly));
    }
  }

  /** One more field of save: the entry it creates, or the error that ends save there. */
  lemma SaveRowsStep(regId: nat, fields: seq<Forms.Field>, blocks: seq<TimeBlock>, next: nat, i: nat,
                     created: seq<BlockRegistration>)
    requires i < |fields| && SaveRows(regId, fields[..i], blocks, next) == (created, None)
    ensures var text := Forms.KeyText(fields[i].key, blocks);
            text.Err? ==> SaveRows(regId, fields, blocks, next) == (created, Some(text.error))
    ensures var text := Forms.KeyText(fields[i].key, blocks);
            text.Ok? ==> SaveRows(regId, fields[..i + 1], blocks, next) ==
                           (created + [BlockRegistration(next + |created|, text.value, regId, fields[i].initial)], None)
  {
    assert fields[..i + 1][..i] == fields[..i] && fields[..i + 1][i] == fields[i];
    if Forms.KeyText(fields[i].key, blocks).Err? {
      SaveRowsErrorStands(regId, fields, blocks, next, i + 1);
    }
  }

  /** Once a field has raised, the later fields create nothing. */
  lemma {:induction false} SaveRowsErrorStands(regId: nat, fields: seq<Forms.Field>, blocks: seq<TimeBlock>,
                                               next: nat, k: nat)
    requires k <= |fields| && SaveRows(regId, fields[..k], blocks, next).1.Some?
    ensures SaveRows(regId, fields, blocks, next) == SaveRows(regId, fields[..k], blocks, next)
    decreases |fields| - k
  {
    if k < |fields| {
      assert fields[..k + 1][..k] == fields[..k];
      SaveRowsErrorStands(regId, fields, blocks, next, k + 1);
    } else {
      assert fields[..k] == fields;
    }
  }
}
