/**
 * The site-wide helpers (convention/utils.py): a user's display name, the
 * current con, whether registration and pre-registration are open, and the
 * summary of a user's registration that the profile page and the
 * confirmation mail list.
 */
module Utils {
  import opened Wrappers
  import opened Text
  import opened Models

  // ---------------------------------------------------------------------
  // friendly_username

  /** "first last" with the surrounding spaces stripped, or the username when that is empty. */
  function FriendlyUsername(u: User): (name: string)
    ensures IsBlank(u.firstName + " " + u.lastName) ==> name == u.username
    ensures !IsBlank(u.firstName + " " + u.lastName) ==>
              name == Strip(u.firstName + " " + u.lastName) &&
              name != [] && !IsSpace(name[0]) && !IsSpace(name[|name| - 1])
  {
    var full := u.firstName + " " + u.lastName;
    var name := Strip(full);
    StripEmptyIffBlank(full);
    if |name| == 0 then u.username else name
  }

  /** A user with a first and a last name is shown as both, with one space between. */
  lemma FriendlyUsernameFullName(u: User)
    requires IsWord(u.firstName) && IsWord(u.lastName)
    ensures FriendlyUsername(u) == u.firstName + " " + u.lastName
  {
    var full := u.firstName + " " + u.lastName;
    assert !IsSpace(full[0]) && !IsSpace(full[|full| - 1]);
    assert !IsBlank(full);
    StripUnpadded(full);
  }

  /** A user with only a first name is shown as that name: the trailing space is stripped. */
  lemma FriendlyUsernameFirstOnly(u: User)
    requires IsWord(u.firstName) && u.lastName == ""
    ensures FriendlyUsername(u) == u.firstName
  {
    var full := u.firstName + " ";
    assert u.firstName + " " + u.lastName == full;
    assert !IsBlank(full) by { assert !IsSpace(full[0]); }
    TrimStartUnpadded(full);
    assert full[..|full| - 1] == u.firstName;
    TrimEndUnpadded(u.firstName);
  }

  /** A user with only a last name is shown as that name: the leading space is stripped. */
  lemma FriendlyUsernameLastOnly(u: User)
    requires u.firstName == "" && IsWord(u.lastName)
    ensures FriendlyUsername(u) == u.lastName
  {
    var full := " " + u.lastName;
    assert u.firstName + " " + u.lastName == full;
    assert !IsBlank(full) by { assert !IsSpace(full[1]); }
    assert full[1..] == u.lastName;
    StripUnpadded(u.lastName);
  }

  /** A user with no names is shown by username. */
  lemma FriendlyUsernameNoNames(u: User)
    requires u.firstName == "" && u.lastName == ""
    ensures FriendlyUsername(u) == u.username
  {
    assert IsBlank(u.firstName + " " + u.lastName);
  }

  // ---------------------------------------------------------------------
  // get_current_con

  const MultipleDateless: string := "Multiple con objects with no date found, can not determine which is the current one"
  const NoCon: string := "No con object found"

  /** The cons with no date, in stored order. */
  function Dateless(cons: seq<ConInfo>): (d: seq<ConInfo>)
    ensures |d| <= |cons|
    ensures forall c :: c in d <==> c in cons && c.date.None?
  {
    if cons == [] then []
    else (if cons[0].date.None? then [cons[0]] else []) + Dateless(cons[1..])
  }

  /** The con with the greatest date; of equal dates, the later one. */
  function Latest(cons: seq<ConInfo>): (c: ConInfo)
    requires cons != [] && forall i :: 0 <= i < |cons| ==> cons[i].date.Some?
    ensures c in cons
    ensures forall i :: 0 <= i < |cons| ==> cons[i].date.value <= c.date.value
  {
    if |cons| == 1 then cons[0]
    else
      var rest := Latest(cons[1..]);
      assert forall i :: 1 <= i < |cons| ==> cons[i] == cons[1..][i - 1];
      if cons[0].date.value <= rest.date.value then rest else cons[0]
  }

  /**
   * get_current_con: the one con without a date if there is exactly one;
   * otherwise, when no con lacks a date, the latest con.
   */
  function GetCurrentCon(cons: seq<ConInfo>): (r: Result<ConInfo>)
    ensures |Dateless(cons)| == 1 ==> r == Ok(Dateless(cons)[0])
    ensures |Dateless(cons)| > 1 ==> r == Err(ValueError(MultipleDateless))
    ensures cons == [] ==> r == Err(ValueError(NoCon))
    ensures Dateless(cons) == [] && cons != [] ==>
              r.Ok? && r.value in cons && r.value.date.Some? &&
              forall i :: 0 <= i < |cons| ==> cons[i].date.value <= r.value.date.value
  {
    var dateless := Dateless(cons);
    if |dateless| == 1 then Ok(dateless[0])
    else if |dateless| > 1 then Err(ValueError(MultipleDateless))
    else if |cons| == 0 then Err(ValueError(NoCon))
    else
      assert forall i :: 0 <= i < |cons| ==> cons[i].date.Some? by {
        forall i | 0 <= i < |cons| ensures cons[i].date.Some? {
          assert cons[i] in cons && cons[i] !in dateless;
        }
      }
      Ok(Latest(cons))
  }

  /** The current con, when there is one, is one of the stored cons. */
  lemma CurrentConIsStored(cons: seq<ConInfo>)
    ensures GetCurrentCon(cons).Ok? ==> GetCurrentCon(cons).value in cons
    ensures GetCurrentCon(cons).Err? <==> cons == [] || |Dateless(cons)| > 1
  {
    if |Dateless(cons)| == 1 {
      assert Dateless(cons)[0] in Dateless(cons);
    }
  }

  /** is_registration_open: registration has an opening time and it has passed. */
  function IsRegistrationOpen(cons: seq<ConInfo>, now: int): (r: Result<bool>)
    ensures r.Ok? <==> GetCurrentCon(cons).Ok?
    ensures r.Err? ==> r.error == GetCurrentCon(cons).error
    ensures r.Ok? ==> (r.value <==> GetCurrentCon(cons).value.registrationOpens.Some? &&
                                    GetCurrentCon(cons).value.registrationOpens.value <= now)
  {
    match GetCurrentCon(cons)
    case Err(e) => Err(e)
    case Ok(con) => Ok(con.registrationOpens.Some? && con.registrationOpens.value <= now)
  }

  // ---------------------------------------------------------------------
  // is_pre_reg_open

  /** The games a user submitted. */
  function GamesOf(uid: nat, games: seq<Game>): (mine: seq<Game>)
    ensures forall g :: g in mine <==> g in games && g.owner == uid
    ensures mine == [] <==> forall i :: 0 <= i < |games| ==> games[i].owner != uid
  {
    if games == [] then []
    else (if games[0].owner == uid then [games[0]] else []) + GamesOf(uid, games[1..])
  }

  /** is_pre_reg_open: a saved user who has submitted at least one game. */
  function IsPreRegOpen(user: Option<User>, games: seq<Game>): (r: bool)
    ensures r <==> user.Some? && user.value.id.Some? &&
                   exists i :: 0 <= i < |games| && games[i].owner == user.value.id.value
  {
    if user.Some? && user.value.id.Some? then
      |GamesOf(user.value.id.value, games)| > 0
    else false
  }

  // ---------------------------------------------------------------------
  // get_registration

  const NotRegistered: string := "Not Registered"
  const PartialMarker: string := "<b>Partially Registered: Please re-register</b>"

  /** The blocks a registration is expected to cover: those whose text does not start with "Not". */
  predicate Scheduled(b: TimeBlock)
  {
    !StartsWith(b.text, "Not")
  }

  function ScheduledBlocks(blocks: seq<TimeBlock>): (s: seq<TimeBlock>)
    ensures forall b :: b in s <==> b in blocks && Scheduled(b)
  {
    if blocks == [] then []
    else (if Scheduled(blocks[0]) then [blocks[0]] else []) + ScheduledBlocks(blocks[1..])
  }

  /** The block texts of a registration's entries. */
  function Texts(items: seq<BlockRegistration>): (ts: seq<string>)
    ensures |ts| == |items| && forall i :: 0 <= i < |items| ==> ts[i] == items[i].timeBlock
  {
    seq(|items|, i requires 0 <= i < |items| => items[i].timeBlock)
  }

  /** Some expected block has no entry. */
  predicate MissingBlock(items: seq<BlockRegistration>, blocks: seq<TimeBlock>)
  {
    exists j :: 0 <= j < |blocks| && Scheduled(blocks[j]) && blocks[j].text !in Texts(items)
  }

  /** "<block>: <label>" for one attended entry. */
  function EntryLine(item: BlockRegistration): Result<string>
  {
    match GetChoice(item.attendance, AttendanceChoices)
    case Err(e) => Err(e)
    case Ok(name) => Ok(item.timeBlock + ": " + name)
  }

  /**
   * The lines of the entries in stored order: one per entry not marked "No";
   * the first entry with an unknown attendance code raises.
   */
  function EntryLines(items: seq<BlockRegistration>): Result<seq<string>>
  {
    if items == [] then Ok([])
    else
      match EntryLines(items[..|items| - 1])
      case Err(e) => Err(e)
      case Ok(lines) =>
        var item := items[|items| - 1];
        if item.attendance == AttendanceNo then Ok(lines)
        else
          match EntryLine(item)
          case Err(e) => Err(e)
          case Ok(line) => Ok(lines + [line])
  }

  /** The number of entries not marked "No". */
  function AttendedCount(items: seq<BlockRegistration>): nat
  {
    if items == [] then 0
    else AttendedCount(items[..|items| - 1]) + if items[|items| - 1].attendance == AttendanceNo then 0 else 1
  }

  /** The entries not marked "No", in stored order. */
  function Attended(items: seq<BlockRegistration>): (a: seq<BlockRegistration>)
    ensures |a| <= |items|
    ensures forall k :: 0 <= k < |a| ==> a[k] in items && a[k].attendance != AttendanceNo
  {
    if items == [] then []
    else
      var init, item := items[..|items| - 1], items[|items| - 1];
      assert forall x :: x in init ==> x in items;
      Attended(init) + if item.attendance == AttendanceNo then [] else [item]
  }

  /** The label an attended entry's line shows. */
  function AttendedLabel(code: string): string
  {
    if code == AttendanceMaybe then "Maybe" else "Yes"
  }

  predicate ValidCodes(items: seq<BlockRegistration>)
  {
    forall i :: 0 <= i < |items| ==> items[i].attendance in {AttendanceMaybe, AttendanceYes, AttendanceNo}
  }

  /**
   * The entry lines exist exactly when every code is a known one; then the
   * k-th line is "<block>: Maybe" or "<block>: Yes" for the k-th entry not
   * marked "No", in stored order.
   */
  lemma {:induction false} EntryLinesShape(items: seq<BlockRegistration>)
    ensures EntryLines(items).Ok? <==> ValidCodes(items)
    ensures EntryLines(items).Err? ==> EntryLines(items).error.ValueError?
    ensures EntryLines(items).Ok? ==>
              var lines := EntryLines(items).value;
              |lines| == AttendedCount(items) == |Attended(items)| &&
              (forall k :: 0 <= k < |lines| ==>
                 Attended(items)[k].attendance in {AttendanceMaybe, AttendanceYes} &&
                 lines[k] == Attended(items)[k].timeBlock + ": " + AttendedLabel(Attended(items)[k].attendance)) &&
              forall i :: 0 <= i < |lines| ==> |lines[i]| > 0 && lines[i][|lines[i]| - 1] in {'e', 's'}
  {
    if items != [] {
      var init, item := items[..|items| - 1], items[|items| - 1];
      EntryLinesShape(init);
      EntryLineShape(item);
      if EntryLines(items).Ok? {
        assert EntryLines(init).Ok?;
        var lines, prev := EntryLines(items).value, EntryLines(init).value;
        var a, pa := Attended(items), Attended(init);
        forall k | 0 <= k < |lines|
          ensures a[k].attendance in {AttendanceMaybe, AttendanceYes}
          ensures lines[k] == a[k].timeBlock + ": " + AttendedLabel(a[k].attendance)
        {
          if k < |prev| {
            assert lines[k] == prev[k] && a[k] == pa[k];
          } else {
            assert a[k] == item && lines[k] == EntryLine(item).value;
          }
        }
      }
      assert ValidCodes(items) <==> ValidCodes(init) && item.attendance in {AttendanceMaybe, AttendanceYes, AttendanceNo} by {
        assert forall i :: 0 <= i < |init| ==> init[i] == items[i];
      }
    }
  }

  /**
   * One entry's line exists exactly for a known code, an unknown code raises
   * ValueError, and an attended entry's line ends with "Maybe" or "Yes".
   */
  lemma EntryLineShape(item: BlockRegistration)
    ensures EntryLine(item).Ok? <==> item.attendance in {AttendanceMaybe, AttendanceYes, AttendanceNo}
    ensures EntryLine(item).Err? ==> EntryLine(item).error.ValueError?
    ensures EntryLine(item).Ok? && item.attendance != AttendanceNo ==>
              var line := EntryLine(item).value;
              |line| > 0 && line[|line| - 1] in {'e', 's'}
    ensures item.attendance in {AttendanceMaybe, AttendanceYes} ==>
              EntryLine(item) == Ok(item.timeBlock + ": " + AttendedLabel(item.attendance))
  {
    AttendanceLabels(item.attendance);
    if item.attendance == AttendanceMaybe {
      assert EntryLine(item).value == item.timeBlock + ": " + "Maybe";
    } else if item.attendance == AttendanceYes {
      assert EntryLine(item).value == item.timeBlock + ": " + "Yes";
    }
  }

  /** Once an entry's code has raised, the later entries do not matter. */
  lemma {:induction false} EntryLinesErrorStands(items: seq<BlockRegistration>, k: nat)
    requires k <= |items| && EntryLines(items[..k]).Err?
    ensures EntryLines(items) == EntryLines(items[..k])
    decreases |items| - k
  {
    if k < |items| {
      assert items[..k + 1][..k] == items[..k];
      assert EntryLines(items[..k + 1]) == EntryLines(items[..k]);
      EntryLinesErrorStands(items, k + 1);
    } else {
      assert items[..k] == items;
    }
  }

  /** The summary of a registration's entries: their lines, then the partial marker if a block is missing. */
  function Summary(items: seq<BlockRegistration>, blocks: seq<TimeBlock>): Result<seq<string>>
  {
    match EntryLines(items)
    case Err(e) => Err(e)
    case Ok(lines) => Ok(lines + if MissingBlock(items, blocks) then [PartialMarker] else [])
  }

  /**
   * The partial marker appears at most once, only last, and exactly when an
   * expected block has no entry; every other line is an entry line.
   */
  lemma SummaryShape(items: seq<BlockRegistration>, blocks: seq<TimeBlock>)
    requires Summary(items, blocks).Ok?
    ensures var s := Summary(items, blocks).value;
            (PartialMarker in s <==> MissingBlock(items, blocks)) &&
            (forall i :: 0 <= i < |s| - 1 ==> s[i] != PartialMarker) &&
            |s| == AttendedCount(items) + if MissingBlock(items, blocks) then 1 else 0
  {
    EntryLinesShape(items);
    var lines := EntryLines(items).value;
    var marker := PartialMarker;
    assert marker[|marker| - 1] == '>';
    assert forall i :: 0 <= i < |lines| ==> lines[i] != marker;
  }

  /** The registrations of a saved user for one con. */
  function RegistrationsOf(user: Option<User>, con: nat, regs: seq<Registration>): (mine: seq<Registration>)
    ensures forall r :: r in mine <==> r in regs && user.Some? && SameUser(r.user, user.value) && r.convention == con
    ensures mine == [] <==> forall i :: 0 <= i < |regs| ==>
                              user.None? || !SameUser(regs[i].user, user.value) || regs[i].convention != con
  {
    if regs == [] then []
    else
      (if user.Some? && SameUser(regs[0].user, user.value) && regs[0].convention == con then [regs[0]] else []) +
      RegistrationsOf(user, con, regs[1..])
  }

  /** The entries that belong to one of the given registrations, in stored order. */
  function EntriesOf(mine: seq<Registration>, entries: seq<BlockRegistration>): (items: seq<BlockRegistration>)
    ensures forall e :: e in items <==> e in entries && exists r :: r in mine && r.id == e.registration
  {
    if entries == [] then []
    else
      (if exists r :: r in mine && r.id == entries[0].registration then [entries[0]] else []) +
      EntriesOf(mine, entries[1..])
  }

  /** get_registration as a function of the stored cons, registrations, entries and blocks. */
  function RegistrationSummary(user: Option<User>, cons: seq<ConInfo>, regs: seq<Registration>,
                               entries: seq<BlockRegistration>, blocks: seq<TimeBlock>): Result<seq<string>>
  {
    match GetCurrentCon(cons)
    case Err(e) => Err(e)
    case Ok(con) =>
      var mine := RegistrationsOf(user, con.id, regs);
      if mine == [] then Ok([NotRegistered])
      else Summary(EntriesOf(mine, entries), blocks)
  }

  /** Without a registration for the current con the summary is exactly "Not Registered". */
  lemma NotRegisteredSummary(user: Option<User>, cons: seq<ConInfo>, regs: seq<Registration>,
                             entries: seq<BlockRegistration>, blocks: seq<TimeBlock>)
    requires GetCurrentCon(cons).Ok?
    requires forall i :: 0 <= i < |regs| ==>
               user.None? || !SameUser(regs[i].user, user.value) || regs[i].convention != GetCurrentCon(cons).value.id
    ensures RegistrationSummary(user, cons, regs, entries, blocks) == Ok([NotRegistered])
  {
  }

  /**
   * get_registration: the lines of the user's entries for the current con,
   * then the partial marker at the first expected block with no entry.
   */
  method GetRegistration(user: Option<User>, cons: seq<ConInfo>, regs: seq<Registration>,
                         entries: seq<BlockRegistration>, blocks: seq<TimeBlock>) returns (r: Result<seq<string>>)
    ensures r == RegistrationSummary(user, cons, regs, entries, blocks)
  {
    var convention := GetCurrentCon(cons);
    if convention.Err? {
      return Err(convention.error);
    }
    var mine := RegistrationsOf(user, convention.value.id, regs);
    if mine == [] {
      return Ok([NotRegistered]);
    }
    var items := EntriesOf(mine, entries);
    r := Summarize(items, blocks);
  }

  /** The two loops of get_registration over a registration's entries and the expected blocks. */
  method Summarize(items: seq<BlockRegistration>, blocks: seq<TimeBlock>) returns (r: Result<seq<string>>)
    ensures r == Summary(items, blocks)
  {
    var registration: seq<string> := [];
    var itemDict: map<string, BlockRegistration> := map[];
    for i := 0 to |items|
      invariant EntryLines(items[..i]) == Ok(registration)
      invariant forall t :: t in itemDict <==> t in Texts(items[..i])
    {
      var item := items[i];
      assert items[..i + 1][..i] == items[..i] && items[..i + 1][i] == item;
      assert Texts(items[..i + 1]) == Texts(items[..i]) + [item.timeBlock];
      itemDict := itemDict[item.timeBlock := item];
      if item.attendance != AttendanceNo {
        var choice := GetChoice(item.attendance, AttendanceChoices);
        if choice.Err? {
          assert EntryLines(items[..i + 1]) == Err(choice.error);
          EntryLinesErrorStands(items, i + 1);
          return Err(choice.error);
        }
        registration := registration + [item.timeBlock + ": " + choice.value];
      }
    }
    assert items[..|items|] == items;
    assert EntryLines(items) == Ok(registration);
    assert forall t :: t in itemDict <==> t in Texts(items);
    var expected := ScheduledBlocks(blocks);
    for j := 0 to |expected|
      invariant forall k :: 0 <= k < j ==> expected[k].text in itemDict
    {
      if expected[j].text !in itemDict {
        registration := registration + [PartialMarker];
        assert MissingBlock(items, blocks) by {
          var b := expected[j];
          assert b in blocks;
          var k := IndexOf(b, blocks);
          assert Scheduled(blocks[k]) && blocks[k].text !in Texts(items);
        }
        return Ok(registration);
      }
    }
    assert !MissingBlock(items, blocks) by {
      forall j | 0 <= j < |blocks| && Scheduled(blocks[j]) ensures blocks[j].text in Texts(items) {
        var k := IndexOf(blocks[j], expected);
      }
    }
    assert registration + [] == registration;
    return Ok(registration);
  }

  /** A position at which x occurs. */
  function IndexOf<T(==)>(x: T, xs: seq<T>): (i: nat)
    requires x in xs
    ensures i < |xs| && xs[i] == x
  {
    if xs[0] == x then 0 else 1 + IndexOf(x, xs[1..])
  }
}
