/**
 * The older code base's user_attendance template tag
 * (wsgi/shadowcon/con/templatetags/user.py): the attendance summary of a
 * user shown on the site's pages.
 */
module LegacyTemplateTags {
  import opened Wrappers
  import opened Models
  import Utils
  import LegacyModels
  import LegacyUserViews

  /**
   * user_attendance: "Not Registered" alone for a user without a
   * registration; otherwise the lines of the entries of the user's
   * registrations, then the partial marker if a scheduled block has no entry.
   */
  function Attendance(user: User, regs: seq<LegacyModels.Registration>, entries: seq<BlockRegistration>,
                      blocks: seq<TimeBlock>): Result<seq<string>>
  {
    if LegacyModels.RegistrationsOfUser(user, regs) == [] then Ok([Utils.NotRegistered])
    else
      var items := LegacyUserViews.UserItems(user, regs, entries);
      match LegacyUserViews.EntryLines(items)
      case Err(e) => Err(e)
      case Ok(lines) => Ok(lines + if Utils.MissingBlock(items, blocks) then [Utils.PartialMarker] else [])
  }

  /** A user with no registration gets exactly ["Not Registered"]. */
  lemma NotRegisteredExactly(user: User, regs: seq<LegacyModels.Registration>, entries: seq<BlockRegistration>,
                             blocks: seq<TimeBlock>)
    requires forall i :: 0 <= i < |regs| ==> !SameUser(user, regs[i].user)
    ensures Attendance(user, regs, entries, blocks) == Ok([Utils.NotRegistered])
  {
    LegacyModels.RegistrationsOfUserMembers(user, regs);
  }

  /**
   * For a registered user the tag shows the newer summary of the same
   * entries: the entry lines in stored order, then the partial marker at
   * most once, last, exactly when a scheduled block has no entry. Only the
   * error of an unknown code differs (IndexError).
   */
  lemma AttendanceIsSummary(user: User, regs: seq<LegacyModels.Registration>, entries: seq<BlockRegistration>,
                            blocks: seq<TimeBlock>)
    requires LegacyModels.RegistrationsOfUser(user, regs) != []
    ensures var items := LegacyUserViews.UserItems(user, regs, entries);
            var a := Attendance(user, regs, entries, blocks);
            (a.Ok? <==> Utils.Summary(items, blocks).Ok?) &&
            (a.Ok? ==> a == Utils.Summary(items, blocks)) &&
            (a.Err? ==> a.error == IndexError)
  {
    LegacyUserViews.EntryLinesAgree(LegacyUserViews.UserItems(user, regs, entries));
  }

  /**
   * Unlike the profile page there is no "Not Attending" fallback: a
   * registered user whose entries are all "No" and cover every scheduled
   * block gets an empty list.
   */
  lemma OnlyNoEntriesGiveEmpty(user: User, regs: seq<LegacyModels.Registration>, entries: seq<BlockRegistration>,
                               blocks: seq<TimeBlock>)
    requires LegacyModels.RegistrationsOfUser(user, regs) != []
    requires var items := LegacyUserViews.UserItems(user, regs, entries);
             Utils.ValidCodes(items) && Utils.AttendedCount(items) == 0 && !Utils.MissingBlock(items, blocks)
    ensures Attendance(user, regs, entries, blocks) == Ok([])
  {
    var items := LegacyUserViews.UserItems(user, regs, entries);
    LegacyUserViews.EntryLinesAgree(items);
    Utils.EntryLinesShape(items);
    var lines := LegacyUserViews.EntryLines(items).value;
    assert |lines| == 0;
    assert lines + [] == [];
  }

  /**
   * The tag's second loop: at the first scheduled block missing from
   * item_dict the partial marker is appended and the scan stops.
   */
  method MarkPartial(lines: seq<string>, itemDict: map<string, BlockRegistration>,
                     items: seq<BlockRegistration>, blocks: seq<TimeBlock>) returns (registration: seq<string>)
    requires forall t :: t in itemDict <==> t in Utils.Texts(items)
    ensures registration == lines + if Utils.MissingBlock(items, blocks) then [Utils.PartialMarker] else []
  {
    registration := lines;
    var expected := Utils.ScheduledBlocks(blocks);
    for j := 0 to |expected|
      invariant forall k :: 0 <= k < j ==> expected[k].text in itemDict
      invariant registration == lines
    {
      if expected[j].text !in itemDict {
        registration := registration + [Utils.PartialMarker];
        assert Utils.MissingBlock(items, blocks) by {
          var b := expected[j];
          assert b in blocks;
          var k := Utils.IndexOf(b, blocks);
          assert Utils.Scheduled(blocks[k]) && blocks[k].text !in Utils.Texts(items);
        }
        return;
      }
    }
    assert !Utils.MissingBlock(items, blocks) by {
      forall j | 0 <= j < |blocks| && Utils.Scheduled(blocks[j]) ensures blocks[j].text in Utils.Texts(items) {
        var k := Utils.IndexOf(blocks[j], expected);
      }
    }
    assert registration + [] == registration;
  }

  /** user_attendance: the registration check, the entry loop, then the marker loop. */
  method UserAttendance(user: User, regs: seq<LegacyModels.Registration>, entries: seq<BlockRegistration>,
                        blocks: seq<TimeBlock>) returns (r: Result<seq<string>>)
    ensures r == Attendance(user, regs, entries, blocks)
  {
    var registrationObject := LegacyModels.RegistrationsOfUser(user, regs);
    if registrationObject == [] {
      return Ok([Utils.NotRegistered]);
    }
    var items := LegacyModels.EntriesOf(registrationObject, entries);
    var collected, itemDict := LegacyUserViews.CollectLines(items);
    if collected.Err? {
      return Err(collected.error);
    }
    var registration := MarkPartial(collected.value, itemDict, items, blocks);
    return Ok(registration);
  }
}
