/**
 * The convention's data model (convention/models.py): time blocks, time
 * slots, locations, games, users, cons and registrations, with the display
 * rules the model classes define on them.
 */
module Models {
  import opened Wrappers
  import opened Text

  // ---------------------------------------------------------------------
  // Choice labels

  /** A Django `choices` tuple: (stored value, human label) pairs. */
  type Choices = seq<(string, string)>

  /**
   * get_choice: the label of the first pair whose value matches; a value
   * that no pair carries raises ValueError.
   */
  function GetChoice(value: string, choices: Choices): (r: Result<string>)
    ensures r.Ok? <==> exists i :: 0 <= i < |choices| && choices[i].0 == value
    ensures r.Ok? ==> exists i :: 0 <= i < |choices| && choices[i].0 == value && r.value == choices[i].1
                                  && forall j :: 0 <= j < i ==> choices[j].0 != value
    ensures r.Err? ==> r.error == ValueError("No choice found for: " + value)
  {
    if choices == [] then Err(ValueError("No choice found for: " + value))
    else if choices[0].0 == value then Ok(choices[0].1)
    else
      var r := GetChoice(value, choices[1..]);
      assert r.Ok? ==> choices[1..][FirstMatch(value, choices[1..])] == choices[FirstMatch(value, choices[1..]) + 1];
      r
  }

  /** Index of the first pair carrying value (|choices| when none does). */
  function FirstMatch(value: string, choices: Choices): (k: nat)
    ensures k <= |choices|
    ensures k < |choices| ==> choices[k].0 == value
    ensures forall j :: 0 <= j < k ==> choices[j].0 != value
  {
    if choices == [] then 0
    else if choices[0].0 == value then 0
    else 1 + FirstMatch(value, choices[1..])
  }

  const AttendanceMaybe: string := "M"
  const AttendanceYes: string := "Y"
  const AttendanceNo: string := "N"

  /** BlockRegistration.ATTENDANCE_CHOICES */
  const AttendanceChoices: Choices := [(AttendanceMaybe, "Maybe"), (AttendanceYes, "Yes"), (AttendanceNo, "No")]

  /** The three attendance codes have labels; every other code raises. */
  lemma AttendanceLabels(code: string)
    ensures GetChoice(AttendanceMaybe, AttendanceChoices) == Ok("Maybe")
    ensures GetChoice(AttendanceYes, AttendanceChoices) == Ok("Yes")
    ensures GetChoice(AttendanceNo, AttendanceChoices) == Ok("No")
    ensures GetChoice(code, AttendanceChoices).Ok? <==> code in {AttendanceMaybe, AttendanceYes, AttendanceNo}
  {
    var c := AttendanceChoices;
    assert c[0].0 == "M" && c[1].0 == "Y" && c[2].0 == "N";
    assert c[1..] == [("Y", "Yes"), ("N", "No")];
    assert c[1..][1..] == [("N", "No")];
  }

  // ---------------------------------------------------------------------
  // Time blocks

  /** The `weekdays` table: the lower-case day names. */
  const Weekdays: set<string> := {"monday", "tuesday", "wednesday", "thursday", "friday", "saturday", "sunday"}

  predicate IsWeekday(word: string)
  {
    LowerStr(word) in Weekdays
  }

  datatype TimeBlock = TimeBlock(id: nat, text: string, sortId: int)

  /** A block whose text has a first word; first_word raises IndexError on any other. */
  predicate Named(b: TimeBlock)
  {
    !IsBlank(b.text)
  }

  /** TimeBlock.first_word: token 0 of the whitespace split. */
  function FirstWord(text: string): (r: Result<string>)
    ensures r.Err? <==> IsBlank(text)
    ensures r.Err? ==> r.error == IndexError
    ensures r.Ok? ==> |Words(text)| >= 1 && r.value == Words(text)[0] && IsWord(r.value)
  {
    var words := Words(text);
    WordsEmptyIffBlank(text);
    if |words| == 0 then Err(IndexError)
    else
      StripUnpadded(words[0]);
      Ok(Strip(words[0]))
  }

  /** TimeBlock.second_word: token 1 of the whitespace split. */
  function SecondWord(text: string): (r: Result<string>)
    ensures r.Err? <==> |Words(text)| < 2
    ensures r.Err? ==> r.error == IndexError
    ensures r.Ok? ==> r.value == Words(text)[1] && IsWord(r.value)
  {
    var words := Words(text);
    if |words| < 2 then Err(IndexError)
    else
      StripUnpadded(words[1]);
      Ok(Strip(words[1]))
  }

  /** TimeBlock.has_second_word */
  function HasSecondWord(text: string): (r: bool)
    ensures r <==> SecondWord(text).Ok?
  {
    |Words(text)| > 1
  }

  /** TimeBlock.__str__: the text followed by the sort id in brackets. */
  function TimeBlockStr(b: TimeBlock): (r: string)
    ensures |r| > |b.text| + 1 && r[..|b.text|] == b.text
    ensures r[|b.text|] == '[' && r[|r| - 1] == ']'
    ensures r[|b.text| + 1..|r| - 1] == IntToString(b.sortId)
  {
    b.text + "[" + IntToString(b.sortId) + "]"
  }

  /** Two blocks with the same text print alike only if their sort ids agree. */
  lemma TimeBlockStrDeterminesSortId(a: TimeBlock, b: TimeBlock)
    requires a.text == b.text
    requires TimeBlockStr(a) == TimeBlockStr(b)
    ensures a.sortId == b.sortId
  {
    var n := |a.text| + 1;
    var sa, sb := TimeBlockStr(a), TimeBlockStr(b);
    assert sa[n..|sa| - 1] == IntToString(a.sortId);
    assert sb[n..|sb| - 1] == IntToString(b.sortId);
    IntToStringInjective(a.sortId, b.sortId);
  }

  /**
   * TimeBlock.get_combined: a block named after a weekday shows only the day
   * name in front of the slot; any other block shows its whole text and " : ".
   * A blank text has no first word, and first_word raises IndexError.
   */
  function GetCombined(b: TimeBlock, s: TimeSlot): (r: Result<string>)
    ensures r.Err? <==> IsBlank(b.text)
    ensures r.Err? ==> r.error == IndexError
    ensures r.Ok? ==> |r.value| > |TimeSlotStr(s)| && r.value[|r.value| - |TimeSlotStr(s)|..] == TimeSlotStr(s)
  {
    match FirstWord(b.text)
    case Err(e) => Err(e)
    case Ok(first) =>
      if IsWeekday(first) then Ok(first + " " + TimeSlotStr(s))
      else Ok(b.text + " : " + TimeSlotStr(s))
  }

  /** A word followed by " " never spells a text followed by " : ". */
  lemma WordIsNotPaddedText(first: string, text: string, tail: string)
    requires IsWord(first)
    ensures text + " : " + tail != first + " " + tail
  {
    var padded, short := text + " : " + tail, first + " " + tail;
    if |padded| == |short| {
      assert padded[|text|] == ' ';
      assert short[|text|] == first[|text|];
    }
  }

  /**
   * For a block with a first word, the short "Day slot" form is used exactly
   * when that word is a weekday, and the "text : slot" form otherwise.
   */
  lemma CombinedUsesDayNameIffWeekday(b: TimeBlock, s: TimeSlot)
    ensures FirstWord(b.text).Ok? ==>
              var first := FirstWord(b.text).value;
              (IsWeekday(first) <==> GetCombined(b, s) == Ok(first + " " + TimeSlotStr(s))) &&
              (!IsWeekday(first) ==> GetCombined(b, s) == Ok(b.text + " : " + TimeSlotStr(s)))
  {
    if FirstWord(b.text).Ok? {
      WordIsNotPaddedText(FirstWord(b.text).value, b.text, TimeSlotStr(s));
    }
  }

  // ---------------------------------------------------------------------
  // Time slots

  /** HourField: an hour of the day, 0 to 23.99. */
  type Hour = r: real | 0.0 <= r <= 23.99

  datatype TimeSlot = TimeSlot(id: nat, start: Hour, stop: Hour)

  /**
   * am_pm_print: 0 is "Midnight", 12 is "Noon", other hours are printed on a
   * 12-hour clock with "%d", which truncates a fractional hour.
   */
  function AmPmPrint(v: Hour): (s: string)
    ensures |s| >= 4
    ensures s[|s| - 1] in {'M', 't', 'n'}
    ensures '-' !in s
  {
    if v == 0.0 then "Midnight"
    else if v == 12.0 then "Noon"
    else if v < 12.0 then NatToString(v.Floor) + " AM"
    else NatToString((v - 12.0).Floor) + " PM"
  }

  /** Reads a 12-hour label back into the hour of the day it names. */
  function ParseAmPm(s: string): Option<nat>
  {
    if s == "Midnight" then Some(0)
    else if s == "Noon" then Some(12)
    else if |s| > 3 && s[|s| - 3..] == " AM" && IsDigits(s[..|s| - 3]) then Some(DigitsValue(s[..|s| - 3]))
    else if |s| > 3 && s[|s| - 3..] == " PM" && IsDigits(s[..|s| - 3]) then Some(DigitsValue(s[..|s| - 3]) + 12)
    else None
  }

  /** The label of an hour reads back as the whole hour it falls in. */
  lemma AmPmPrintReadsBack(v: Hour)
    ensures ParseAmPm(AmPmPrint(v)) == Some(v.Floor)
  {
    var s := AmPmPrint(v);
    if v == 0.0 {
    } else if v == 12.0 {
    } else if v < 12.0 {
      var d := NatToString(v.Floor);
      assert s == d + " AM" && s[..|s| - 3] == d && s[|s| - 3..] == " AM";
      assert s != "Midnight" by { assert s[|s| - 1] != "Midnight"[7]; }
      assert s != "Noon" by { assert s[|s| - 1] != "Noon"[3]; }
      DigitsRoundTrip(v.Floor);
    } else {
      var d := NatToString((v - 12.0).Floor);
      assert s == d + " PM" && s[..|s| - 3] == d && s[|s| - 3..] == " PM";
      assert s != "Midnight" by { assert s[|s| - 1] != "Midnight"[7]; }
      assert s != "Noon" by { assert s[|s| - 1] != "Noon"[3]; }
      assert s[|s| - 3..] != " AM" by { assert s[|s| - 2] != " AM"[1]; }
      DigitsRoundTrip((v - 12.0).Floor);
    }
  }

  /** A whole hour prints as the source's table says. */
  lemma AmPmPrintWholeHour(h: nat)
    requires h <= 23
    ensures h == 0 ==> AmPmPrint(h as real) == "Midnight"
    ensures h == 12 ==> AmPmPrint(h as real) == "Noon"
    ensures 1 <= h <= 11 ==> AmPmPrint(h as real) == NatToString(h) + " AM"
    ensures 13 <= h ==> AmPmPrint(h as real) == NatToString(h - 12) + " PM"
  {
  }

  /** TimeSlot.__str__ */
  function TimeSlotStr(s: TimeSlot): (r: string)
    ensures |r| >= 11
    ensures r[|r| - 1] in {'M', 't', 'n'}
  {
    AmPmPrint(s.start) + " - " + AmPmPrint(s.stop)
  }

  /**
   * Reads a slot label back into its start and stop hours: the label splits
   * at "-" into two parts, "start " and " stop".
   */
  function ParseSlot(r: string): Option<(nat, nat)>
  {
    var parts := SplitOn(r, '-');
    if |parts| != 2 || |parts[0]| == 0 || |parts[1]| == 0 then None
    else if parts[0][|parts[0]| - 1] != ' ' || parts[1][0] != ' ' then None
    else
      match (ParseAmPm(parts[0][..|parts[0]| - 1]), ParseAmPm(parts[1][1..]))
      case (Some(start), Some(stop)) => Some((start, stop))
      case _ => None
  }

  /** Two labels without "-" joined by " - " split back into "start " and " stop". */
  lemma SplitSlotLabel(a: string, b: string)
    requires '-' !in a && '-' !in b
    ensures SplitOn(a + " - " + b, '-') == [a + " ", " " + b]
  {
    var p, d := a + " ", " " + b;
    assert a + " - " + b == p + ['-'] + d;
    assert '-' !in p by {
      forall i | 0 <= i < |p| ensures p[i] != '-' {
        if i < |a| { assert p[i] == a[i]; }
      }
    }
    assert '-' !in d by {
      forall i | 0 <= i < |d| ensures d[i] != '-' {
        if i > 0 { assert d[i] == b[i - 1]; }
      }
    }
    SplitOnFirst(p, '-', d);
    SplitOnNoSeparator(d, '-');
  }

  /** A slot's label reads back as the whole hours of its start and its stop. */
  lemma TimeSlotStrReadsBack(s: TimeSlot)
    ensures ParseSlot(TimeSlotStr(s)) == Some((s.start.Floor, s.stop.Floor))
  {
    var a, b := AmPmPrint(s.start), AmPmPrint(s.stop);
    SplitSlotLabel(a, b);
    var parts := SplitOn(TimeSlotStr(s), '-');
    assert parts[0][..|parts[0]| - 1] == a;
    assert parts[1][1..] == b;
    AmPmPrintReadsBack(s.start);
    AmPmPrintReadsBack(s.stop);
  }

  /** The example the model tests use: a 4 to 12 slot. */
  lemma TimeSlotStrExample()
    ensures TimeSlotStr(TimeSlot(1, 4.0, 12.0)) == "4 AM - Noon"
  {
    assert NatToString(4) == "4";
  }

  // ---------------------------------------------------------------------
  // Locations, users, games

  datatype Location = Location(id: nat, text: string)

  /**
   * django.contrib.auth's User, reduced to what the code reads. An unsaved
   * user has no id; the anonymous visitor is not authenticated.
   */
  datatype User = User(id: Option<nat>, username: string, firstName: string, lastName: string,
                       email: string, isAuthenticated: bool, isStaff: bool, isSuperuser: bool)

  /** Django compares saved model instances by primary key. */
  predicate SameUser(a: User, b: User)
  {
    a.id.Some? && a.id == b.id
  }

  datatype Game = Game(id: nat, title: string, gm: string, owner: nat,
                       location: Option<Location>, timeBlock: Option<TimeBlock>, timeSlot: Option<TimeSlot>,
                       preferredTime: string, specialRequests: string,
                       lastModified: int, lastScheduled: Option<int>)

  predicate IsTargetChar(c: char)
  {
    IsLowerLetter(c) || IsDigit(c) || c == '_'
  }

  /** The anchor-slug substitution re.sub('[^A-Za-z0-9]', '_', ...). */
  function Slug(s: string): (r: string)
    ensures |r| == |s|
    ensures forall i :: 0 <= i < |s| ==> r[i] == if IsAlnum(s[i]) then s[i] else '_'
  {
    seq(|s|, i requires 0 <= i < |s| => if IsAlnum(s[i]) then s[i] else '_')
  }

  /**
   * Game.header_target: the stripped title, one character for one, with each
   * letter or digit kept (lower-cased) and everything else turned into '_'.
   */
  function HeaderTarget(title: string): (r: string)
    ensures |r| == |Strip(title)|
    ensures forall i :: 0 <= i < |r| ==> IsTargetChar(r[i])
    ensures forall i :: 0 <= i < |r| ==>
              r[i] == if IsAlnum(Strip(title)[i]) then Lower(Strip(title)[i]) else '_'
  {
    Slug(LowerStr(Strip(title)))
  }

  /** A string of slug characters is unchanged by lower-casing and the slug substitution. */
  lemma SlugOfTargetChars(t: string)
    requires forall i :: 0 <= i < |t| ==> IsTargetChar(t[i])
    ensures Slug(LowerStr(t)) == t
  {
    var l := LowerStr(t);
    assert l == t by {
      forall i | 0 <= i < |t| ensures l[i] == t[i] {
        assert !IsUpper(t[i]);
      }
    }
    var r := Slug(l);
    forall i | 0 <= i < |t| ensures r[i] == t[i] {
      assert IsAlnum(t[i]) || t[i] == '_';
    }
  }

  /** An anchor slug is already its own anchor slug. */
  lemma HeaderTargetIdempotent(title: string)
    ensures HeaderTarget(HeaderTarget(title)) == HeaderTarget(title)
  {
    var t := HeaderTarget(title);
    assert t == [] || (!IsSpace(t[0]) && !IsSpace(t[|t| - 1])) by {
      if t != [] {
        assert IsTargetChar(t[0]) && IsTargetChar(t[|t| - 1]);
      }
    }
    StripUnpadded(t);
    SlugOfTargetChars(t);
  }

  /** The stripped title of the example below. */
  lemma StripExample(title: string)
    requires title == " A Game: Title "
    ensures Strip(title) == "A Game: Title"
  {
    var u := title[1..];
    assert u == "A Game: Title ";
    var t := u[..|u| - 1];
    assert t == "A Game: Title";
    assert TrimStart(title) == u by { TrimStartUnpadded(u); }
    TrimEndUnpadded(t);
  }

  /** The slug of the stripped example title. */
  lemma SlugExample(t: string)
    requires t == "A Game: Title"
    ensures Slug(LowerStr(t)) == "a_game__title"
  {
    var r, want := Slug(LowerStr(t)), "a_game__title";
    forall i | 0 <= i < |want| ensures r[i] == want[i] {
      assert r[i] == if IsAlnum(t[i]) then Lower(t[i]) else '_';
    }
  }

  /** The example the model tests use: " A Game: Title " becomes "a_game__title". */
  lemma HeaderTargetExample(title: string)
    requires title == " A Game: Title "
    ensures HeaderTarget(title) == "a_game__title"
  {
    StripExample(title);
    SlugExample(Strip(title));
  }

  const NotScheduled: string := "Not Scheduled"

  /** Game.friendly_block */
  function FriendlyBlock(g: Game): (r: string)
    ensures g.timeBlock.Some? ==> r == g.timeBlock.value.text
    ensures g.timeBlock.None? ==> r == NotScheduled
  {
    if g.timeBlock.Some? then g.timeBlock.value.text else NotScheduled
  }

  /**
   * Game.combined_time: "Not Scheduled" unless both a block and a slot are
   * set; with both, the block's combined label, which fails for a blank text.
   */
  function CombinedTime(g: Game): (r: Result<string>)
    ensures r.Err? ==> r.error == IndexError
  {
    if g.timeBlock.Some? && g.timeSlot.Some? then GetCombined(g.timeBlock.value, g.timeSlot.value)
    else Ok(NotScheduled)
  }

  /**
   * A game shows "Not Scheduled" exactly when its block or its slot is
   * missing, fails exactly when both are set and the block's text is blank,
   * and with both set shows the block's combined label for the slot.
   */
  lemma CombinedTimeNotScheduledIff(g: Game)
    ensures CombinedTime(g) == Ok(NotScheduled) <==> g.timeBlock.None? || g.timeSlot.None?
    ensures CombinedTime(g).Err? <==> g.timeBlock.Some? && g.timeSlot.Some? && IsBlank(g.timeBlock.value.text)
    ensures g.timeBlock.Some? && g.timeSlot.Some? ==>
              CombinedTime(g) == GetCombined(g.timeBlock.value, g.timeSlot.value)
  {
    if g.timeBlock.Some? && g.timeSlot.Some? && !IsBlank(g.timeBlock.value.text) {
      var r := CombinedTime(g).value;
      var slot := TimeSlotStr(g.timeSlot.value);
      assert r[|r| - 1] == slot[|slot| - 1];
      assert r != NotScheduled by { assert NotScheduled[|NotScheduled| - 1] == 'd'; }
    }
  }

  // ---------------------------------------------------------------------
  // Cons and registrations

  /** ConInfo, reduced to the fields the core reads; times are instants. */
  datatype ConInfo = ConInfo(id: nat, date: Option<int>, registrationOpens: Option<int>, maxAttendees: nat)

  /** Registration; `payment` is the chosen payment option's name. */
  datatype Registration = Registration(id: nat, user: User, convention: nat, registrationDate: int,
                                       lastUpdated: int, payment: string, paymentReceived: bool)

  /** BlockRegistration: one registration's attendance code for one block, by block text. */
  datatype BlockRegistration = BlockRegistration(id: nat, timeBlock: string, registration: nat, attendance: string)

  /**
   * The stored rows the forms and views read and write: registrations and
   * block entries, with the next primary key each table hands out.
   */
  class Database {
    var registrations: seq<Registration>
    var entries: seq<BlockRegistration>
    var nextRegistrationId: nat
    var nextEntryId: nat

    constructor (registrations: seq<Registration>, entries: seq<BlockRegistration>,
                 nextRegistrationId: nat, nextEntryId: nat)
      ensures this.registrations == registrations && this.entries == entries
      ensures this.nextRegistrationId == nextRegistrationId && this.nextEntryId == nextEntryId
    {
      this.registrations := registrations;
      this.entries := entries;
      this.nextRegistrationId := nextRegistrationId;
      this.nextEntryId := nextEntryId;
    }
  }
}
