/**
 * The older code base's user views (wsgi/shadowcon/con/views/user.py): the
 * Yes/Maybe filter, the profile's registration summary and the attendance
 * form's form_valid.
 */
module LegacyUserViews {
  import opened Wrappers
  import opened Models
  import opened Responses
  import Utils
  import Forms
  import LegacyModels
  import LegacyForms

  /** The entries of the user's registrations, in stored order. */
  function UserItems(user: User, regs: seq<LegacyModels.Registration>, entries: seq<BlockRegistration>)
    : seq<BlockRegistration>
  {
    LegacyModels.EntriesOf(LegacyModels.RegistrationsOfUser(user, regs), entries)
  }

  // ---------------------------------------------------------------------
  // get_registration

  /** The entries marked Yes or Maybe, in stored order. */
  function Attending(items: seq<BlockRegistration>): (kept: seq<BlockRegistration>)
    ensures |kept| <= |items|
  {
    if items == [] then []
    else
      var item := items[|items| - 1];
      Attending(items[..|items| - 1]) + if item.attendance in [AttendanceYes, AttendanceMaybe] then [item] else []
  }

  /** The kept entries are exactly those marked Yes or Maybe. */
  lemma {:induction false} AttendingMembers(items: seq<BlockRegistration>)
    ensures forall e :: e in Attending(items) <==> e in items && e.attendance in {AttendanceYes, AttendanceMaybe}
  {
    if items != [] {
      var init := items[..|items| - 1];
      AttendingMembers(init);
      assert items == init + [items[|items| - 1]];
    }
  }

  /** With only known codes, every entry not marked "No" is kept. */
  lemma {:induction false} AttendingCount(items: seq<BlockRegistration>)
    requires Utils.ValidCodes(items)
    ensures |Attending(items)| == Utils.AttendedCount(items)
  {
    if items != [] {
      var init := items[..|items| - 1];
      assert Utils.ValidCodes(init) by {
        assert forall i :: 0 <= i < |init| ==> init[i] == items[i];
      }
      AttendingCount(init);
      assert items[|items| - 1].attendance in {AttendanceMaybe, AttendanceYes, AttendanceNo};
    }
  }

  /**
   * get_registration: the entries of the user's registrations that are
   * marked Yes or Maybe, in stored order.
   */
  function GetRegistration(user: User, regs: seq<LegacyModels.Registration>, entries: seq<BlockRegistration>)
    : (kept: seq<BlockRegistration>)
    ensures forall e :: e in kept <==>
              e in entries && e.attendance in {AttendanceYes, AttendanceMaybe} &&
              exists r :: r in regs && SameUser(user, r.user) && r.id == e.registration
  {
    var mine := LegacyModels.RegistrationsOfUser(user, regs);
    LegacyModels.RegistrationsOfUserMembers(user, regs);
    LegacyModels.EntriesOfMembers(mine, entries);
    AttendingMembers(UserItems(user, regs, entries));
    Attending(UserItems(user, regs, entries))
  }

  // ---------------------------------------------------------------------
  // show_profile

  const NotAttending: string := "Not Attending"

  /** "<block>: <label>" for one attended entry, with the older get_choice. */
  function EntryLine(item: BlockRegistration): Result<string>
  {
    match LegacyModels.GetChoice(item.attendance, AttendanceChoices)
    case Err(e) => Err(e)
    case Ok(name) => Ok(item.timeBlock + ": " + name)
  }

  /** The lines of the entries not marked "No", in stored order; an unknown code raises. */
  function EntryLines(items: seq<BlockRegistration>): Result<seq<string>>
  {
    if items == [] then Ok([])
    else
      match EntryLines(items[..|items| - 1])
      case Err(e) => Err(e)
      case Ok(lines) =>
        var item := items[|items| - 1];
        if item.attendance == AttendanceNo then Ok(lines)
        else
          match EntryLine(item)
          case Err(e) => Err(e)
          case Ok(line) => Ok(lines + [line])
  }

  /**
   * The older entry lines are the newer ones; only the error differs: an
   * unknown code raises IndexError instead of ValueError.
   */
  lemma {:induction false} EntryLinesAgree(items: seq<BlockRegistration>)
    ensures EntryLines(items).Ok? <==> Utils.EntryLines(items).Ok?
    ensures EntryLines(items).Ok? ==> EntryLines(items).value == Utils.EntryLines(items).value
    ensures EntryLines(items).Err? ==> EntryLines(items).error == IndexError
  {
    if items != [] {
      EntryLinesAgree(items[..|items| - 1]);
    }
  }

  /** Once an entry's code has raised, the later entries do not matter. */
  lemma {:induction false} EntryLinesErrorStands(items: seq<BlockRegistration>, k: nat)
    requires k <= |items| && EntryLines(items[..k]).Err?
    ensures EntryLines(items) == EntryLines(items[..k])
    decreases |items| - k
  {
    if k < |items| {
      assert items[..k + 1][..k] == items[..k];
      EntryLinesErrorStands(items, k + 1);
    } else {
      assert items[..k] == items;
    }
  }

  /**
   * The profile's registration list: the entry lines; at a scheduled block
   * with no entry, "Not Registered" if there is no line yet, else the
   * partial marker; and "Not Attending" if the list is still empty.
   */
  function Profile(items: seq<BlockRegistration>, blocks: seq<TimeBlock>): Result<seq<string>>
  {
    match EntryLines(items)
    case Err(e) => Err(e)
    case Ok(lines) =>
      var marked := Marked(lines, items, blocks);
      Ok(if marked == [] then [NotAttending] else marked)
  }

  /** The lines, then "Not Registered" or the partial marker when a scheduled block has no entry. */
  function Marked(lines: seq<string>, items: seq<BlockRegistration>, blocks: seq<TimeBlock>): seq<string>
  {
    if Utils.MissingBlock(items, blocks) then lines + [if lines == [] then Utils.NotRegistered else Utils.PartialMarker]
    else lines
  }

  /**
   * The profile list exists exactly when every code is known and is never
   * empty: "Not Registered" alone when nothing is attended and a block is
   * missing, "Not Attending" alone when nothing is attended and none is, and
   * otherwise one line per attended entry, then the partial marker exactly
   * when a block is missing.
   */
  lemma ProfileShape(items: seq<BlockRegistration>, blocks: seq<TimeBlock>)
    ensures Profile(items, blocks).Ok? <==> Utils.ValidCodes(items)
    ensures Profile(items, blocks).Err? ==> Profile(items, blocks).error == IndexError
    ensures Profile(items, blocks).Ok? ==>
              var s := Profile(items, blocks).value;
              var missing := Utils.MissingBlock(items, blocks);
              var n := Utils.AttendedCount(items);
              s != [] &&
              (s == [Utils.NotRegistered] <==> n == 0 && missing) &&
              (s == [NotAttending] <==> n == 0 && !missing) &&
              (Utils.PartialMarker in s <==> n > 0 && missing) &&
              |s| == if n == 0 then 1 else n + if missing then 1 else 0
  {
    EntryLinesAgree(items);
    Utils.EntryLinesShape(items);
    if EntryLines(items).Ok? {
      var lines := EntryLines(items).value;
      var marker, none, absent := Utils.PartialMarker, Utils.NotRegistered, NotAttending;
      assert marker[|marker| - 1] == '>' && none[|none| - 1] == 'd' && absent[|absent| - 1] == 'g';
      assert forall i :: 0 <= i < |lines| ==> lines[i] != marker && lines[i] != none && lines[i] != absent;
      assert marker != none && marker != absent && none != absent;
      if lines != [] {
        assert lines[0] in lines + [marker];
      }
    }
  }

  /**
   * show_profile's first loop: the entry lines of the items, and item_dict
   * keyed by each entry's block text.
   */
  method CollectLines(items: seq<BlockRegistration>)
    returns (r: Result<seq<string>>, itemDict: map<string, BlockRegistration>)
    ensures r == EntryLines(items)
    ensures r.Ok? ==> forall t :: t in itemDict <==> t in Utils.Texts(items)
  {
    var registration: seq<string> := [];
    itemDict := map[];
    for i := 0 to |items|
      invariant EntryLines(items[..i]) == Ok(registration)
      invariant forall t :: t in itemDict <==> t in Utils.Texts(items[..i])
    {
      var item := items[i];
      CollectStep(items, i, registration);
      itemDict := itemDict[item.timeBlock := item];
      if item.attendance != AttendanceNo {
        var choice := LegacyModels.GetChoice(item.attendance, AttendanceChoices);
        if choice.Err? {
          EntryLinesErrorStands(items, i + 1);
          return Err(choice.error), itemDict;
        }
        registration := registration + [item.timeBlock + ": " + choice.value];
      }
    }
    assert items[..|items|] == items;
    return Ok(registration), itemDict;
  }

  /** One more entry of the first loop: its line, no line for "No", or the error that ends the loop. */
  lemma CollectStep(items: seq<BlockRegistration>, i: nat, lines: seq<string>)
    requires i < |items| && EntryLines(items[..i]) == Ok(lines)
    ensures var item := items[i];
            var choice := LegacyModels.GetChoice(item.attendance, AttendanceChoices);
            EntryLines(items[..i + 1]) ==
              if item.attendance == AttendanceNo then Ok(lines)
              else if choice.Err? then Err(choice.error)
              else Ok(lines + [item.timeBlock + ": " + choice.value])
    ensures Utils.Texts(items[..i + 1]) == Utils.Texts(items[..i]) + [items[i].timeBlock]
  {
    assert items[..i + 1][..i] == items[..i] && items[..i + 1][i] == items[i];
  }

  /**
   * show_profile's second loop: at the first scheduled block in item_dict's
   * absence, "Not Registered" if there is no line yet, else the partial
   * marker, and the scan stops.
   */
  method MarkMissing(lines: seq<string>, itemDict: map<string, BlockRegistration>,
                     items: seq<BlockRegistration>, blocks: seq<TimeBlock>) returns (registration: seq<string>)
    requires forall t :: t in itemDict <==> t in Utils.Texts(items)
    ensures registration == Marked(lines, items, blocks)
  {
    registration := lines;
    var expected := Utils.ScheduledBlocks(blocks);
    for j := 0 to |expected|
      invariant forall k :: 0 <= k < j ==> expected[k].text in itemDict
      invariant registration == lines
    {
      if expected[j].text !in itemDict {
        if 0 == |registration| {
          registration := registration + [Utils.NotRegistered];
        } else {
          registration := registration + [Utils.PartialMarker];
        }
        assert Utils.MissingBlock(items, blocks) by {
          var b := expected[j];
          assert b in blocks;
          var k := Utils.IndexOf(b, blocks);
          assert Utils.Scheduled(blocks[k]) && blocks[k].text !in Utils.Texts(items);
        }
        return;
      }
    }
    assert !Utils.MissingBlock(items, blocks) by {
      forall j | 0 <= j < |blocks| && Utils.Scheduled(blocks[j]) ensures blocks[j].text in Utils.Texts(items) {
        var k := Utils.IndexOf(blocks[j], expected);
      }
    }
  }

  /**
   * show_profile's list: the lines of the user's entries, then the marker
   * loop over the scheduled blocks, then the "Not Attending" fallback.
   */
  method ShowProfile(user: User, regs: seq<LegacyModels.Registration>, entries: seq<BlockRegistration>,
                     blocks: seq<TimeBlock>) returns (r: Result<seq<string>>)
    ensures r == Profile(UserItems(user, regs, entries), blocks)
  {
    var items := UserItems(user, regs, entries);
    var collected, itemDict := CollectLines(items);
    if collected.Err? {
      return Err(collected.error);
    }
    var registration := MarkMissing(collected.value, itemDict, items, blocks);
    ghost var marked := registration;
    assert Profile(items, blocks) == Ok(if marked == [] then [NotAttending] else marked);
    if 0 == |registration| {
      assert registration == [];
      registration := registration + [NotAttending];
    }
    assert registration == if marked == [] then [NotAttending] else marked;
    assert items == UserItems(user, regs, entries);
    return Ok(registration);
  }

  // ---------------------------------------------------------------------
  // NewAttendanceView.form_valid

  const SuccessUrl: string := "/new_attend/"

  /** The registration form_valid makes for a user without one, as written: dated now, paying cash, last_updated unset. */
  function NewRegistrationAsWritten(id: nat, user: User, now: int): LegacyModels.Registration
  {
    LegacyModels.Registration(id, user, now, None, LegacyModels.PaymentCash, false)
  }

  /** The same registration with last_updated set to now as well, so that it can be saved. */
  function NewRegistration(id: nat, user: User, now: int): LegacyModels.Registration
  {
    NewRegistrationAsWritten(id, user, now).(lastUpdated := Some(now))
  }

  /** The entries of every registration but one, in stored order. */
  function WithoutEntriesOf(regId: nat, entries: seq<BlockRegistration>): (rest: seq<BlockRegistration>)
    ensures |rest| <= |entries|
  {
    if entries == [] then []
    else (if entries[0].registration == regId then [] else [entries[0]]) + WithoutEntriesOf(regId, entries[1..])
  }

  /** Exactly the registration's entries are deleted. */
  lemma {:induction false} WithoutEntriesOfMembers(regId: nat, entries: seq<BlockRegistration>)
    ensures forall e :: e in WithoutEntriesOf(regId, entries) <==> e in entries && e.registration != regId
  {
    if entries != [] {
      WithoutEntriesOfMembers(regId, entries[1..]);
      assert forall e :: e in entries <==> e == entries[0] || e in entries[1..];
    }
  }

  /** The tables after form_valid's first step, and the registration it settled on. */
  datatype Prepared = Prepared(registrations: seq<LegacyModels.Registration>, entries: seq<BlockRegistration>,
                               nextRegistrationId: nat, target: LegacyModels.Registration, newEntry: bool)

  /**
   * form_valid's first step: a user without a registration gets a new one,
   * stamped so that it can be saved; otherwise the first one is kept and all
   * of its entries are deleted.
   */
  function Prepare(user: User, regs: seq<LegacyModels.Registration>, entries: seq<BlockRegistration>,
                   nextRegistrationId: nat, now: int): Prepared
  {
    var mine := LegacyModels.RegistrationsOfUser(user, regs);
    if 0 == |mine| then
      var reg := NewRegistration(nextRegistrationId, user, now);
      Prepared(LegacyModels.InsertRegistration(regs, reg).value, entries, nextRegistrationId + 1, reg, true)
    else
      Prepared(regs, WithoutEntriesOf(mine[0].id, entries), nextRegistrationId, mine[0], false)
  }

  /**
   * A new registration is made exactly when the user has none, and it pays
   * cash; otherwise the target is one of the user's stored registrations,
   * the registrations are unchanged and exactly its entries are gone.
   */
  lemma PrepareCreatesOrClears(user: User, regs: seq<LegacyModels.Registration>, entries: seq<BlockRegistration>,
                               nextRegistrationId: nat, now: int)
    ensures var p := Prepare(user, regs, entries, nextRegistrationId, now);
            p.newEntry <==> forall i :: 0 <= i < |regs| ==> !SameUser(user, regs[i].user)
    ensures var p := Prepare(user, regs, entries, nextRegistrationId, now);
            p.newEntry ==> p.target.user == user && p.target.payment == LegacyModels.PaymentCash &&
                           p.target.id == nextRegistrationId && p.target.registrationDate == now &&
                           p.target.lastUpdated == Some(now) &&
                           LegacyModels.InsertRegistration(regs, p.target) == Ok(p.registrations) &&
                           p.registrations == regs + [p.target] && p.entries == entries
    ensures var p := Prepare(user, regs, entries, nextRegistrationId, now);
            !p.newEntry ==> p.target in regs && SameUser(user, p.target.user) && p.registrations == regs &&
                            forall e :: e in p.entries <==> e in entries && e.registration != p.target.id
  {
    var mine := LegacyModels.RegistrationsOfUser(user, regs);
    LegacyModels.RegistrationsOfUserMembers(user, regs);
    if mine != [] {
      assert mine[0] in mine;
      WithoutEntriesOfMembers(mine[0].id, entries);
    }
  }

  /**
   * form_valid as written: a new registration lacks last_updated, so its
   * save raises IntegrityError and nothing changes; an existing one has its
   * entries deleted, and then save is called with the registration alone;
   * save also takes new_entry, so that call raises TypeError.
   */
  method FormValidAsWritten(db: LegacyModels.Database, user: User, now: int) returns (r: Result<Response>)
    modifies db
    ensures LegacyModels.RegistrationsOfUser(user, old(db.registrations)) == [] ==>
              r == Err(IntegrityError) && unchanged(db)
    ensures LegacyModels.RegistrationsOfUser(user, old(db.registrations)) != [] ==>
              var p := Prepare(user, old(db.registrations), old(db.entries), old(db.nextRegistrationId), now);
              db.registrations == p.registrations && db.entries == p.entries &&
              db.nextRegistrationId == p.nextRegistrationId && db.nextEntryId == old(db.nextEntryId) &&
              r == Err(TypeError)
  {
    var registration := LegacyModels.RegistrationsOfUser(user, db.registrations);
    if 0 == |registration| {
      var reg := NewRegistrationAsWritten(db.nextRegistrationId, user, now);
      // The save of a row without last_updated always raises, so the rest of
      // form_valid is never reached on this path.
      var saved := LegacyModels.InsertRegistration(db.registrations, reg);
      return Err(saved.error);
    } else {
      db.entries := WithoutEntriesOf(registration[0].id, db.entries);
    }
    return Err(TypeError);
  }

  /**
   * Resubmitting the form as written loses the attendance: the user's
   * registration is left with no entry at all, and the view raises.
   */
  lemma FormValidAsWrittenLosesAttendance(user: User, regs: seq<LegacyModels.Registration>,
                                          entries: seq<BlockRegistration>, nextRegistrationId: nat, now: int,
                                          e: BlockRegistration)
    requires LegacyModels.RegistrationsOfUser(user, regs) != []
    requires e in entries && e.registration == LegacyModels.RegistrationsOfUser(user, regs)[0].id
    ensures var p := Prepare(user, regs, entries, nextRegistrationId, now);
            !p.newEntry && e !in p.entries && forall x :: x in p.entries ==> x.registration != p.target.id
  {
    WithoutEntriesOfMembers(LegacyModels.RegistrationsOfUser(user, regs)[0].id, entries);
  }

  /**
   * form_valid with save given new_entry as well: after the first step the
   * form's block fields are saved against the registration and the view
   * redirects to its success URL.
   */
  method FormValid(db: LegacyModels.Database, form: LegacyForms.AttendanceForm, user: User, now: int,
                   blocks: seq<TimeBlock>) returns (r: Result<Response>)
    modifies db
    ensures var p := Prepare(user, old(db.registrations), old(db.entries), old(db.nextRegistrationId), now);
            var s := LegacyForms.SaveRows(p.target.id, Forms.TimeBlockFields(form.fields), blocks, old(db.nextEntryId));
            db.registrations == p.registrations && db.nextRegistrationId == p.nextRegistrationId &&
            db.entries == p.entries + s.0 && db.nextEntryId == old(db.nextEntryId) + |s.0| &&
            r == if s.1.Some? then Err(s.1.value) else Ok(Redirect(SuccessUrl))
  {
    var registration := LegacyModels.RegistrationsOfUser(user, db.registrations);
    var target: LegacyModels.Registration;
    var newEntry := 0 == |registration|;
    if newEntry {
      target := NewRegistration(db.nextRegistrationId, user, now);
      db.registrations := LegacyModels.InsertRegistration(db.registrations, target).value;
      db.nextRegistrationId := db.nextRegistrationId + 1;
    } else {
      target := registration[0];
      db.entries := WithoutEntriesOf(target.id, db.entries);
    }
    var sent := form.Save(db, target, newEntry, blocks);
    if sent.Err? {
      return Err(sent.error);
    }
    return Ok(Redirect(SuccessUrl));
  }

  /**
   * With form_valid fixed, a form built from blocks with unique ids leaves
   * the registration with exactly one entry per scheduled block, in block
   * order, holding the block's text and its field's code: the stored entries
   * all belong to registrations below the next id.
   */
  lemma FormValidLeavesOneEntryPerBlock(user: User, regs: seq<LegacyModels.Registration>,
                                        entries: seq<BlockRegistration>, nextRegistrationId: nat, nextEntryId: nat,
                                        now: int, blocks: seq<TimeBlock>, data: map<string, string>)
    requires Forms.UniqueBlockIds(blocks)
    requires forall i :: 0 <= i < |entries| ==> entries[i].registration < nextRegistrationId
    ensures var p := Prepare(user, regs, entries, nextRegistrationId, now);
            var s := LegacyForms.SaveRows(p.target.id, Forms.TimeBlockFields(LegacyForms.FormFields(blocks, data)),
                                          blocks, nextEntryId);
            var scheduled := Utils.ScheduledBlocks(blocks);
            s.1 == None &&
            (forall x :: x in p.entries + s.0 && x.registration == p.target.id <==> x in s.0) &&
            |s.0| == |scheduled| &&
            forall k :: 0 <= k < |scheduled| ==>
              s.0[k].timeBlock == scheduled[k].text && s.0[k].attendance == Forms.FieldFor(scheduled[k], data).initial
  {
    var p := Prepare(user, regs, entries, nextRegistrationId, now);
    PrepareCreatesOrClears(user, regs, entries, nextRegistrationId, now);
    LegacyForms.SavesOneEntryPerBlock(p.target.id, blocks, data, nextEntryId);
  }
}
