/**
 * The staff attendance list and the payment guard of the user views
 * (convention/views/user.py): per-block tallies, the per-registration details
 * grid, the payments and contact tables, and NotAlreadyPaid's dispatch rule.
 * Query results are passed in as sequences in the database's order.
 */
module UserViews {
  import opened Wrappers
  import opened Text
  import opened Models
  import opened Responses
  import Utils
  import Forms

  // ---------------------------------------------------------------------
  // registration_count and missing_count

  /** The number of entries for a block text with a given attendance code. */
  function CountWith(text: string, attendance: string, entries: seq<BlockRegistration>): (n: nat)
    ensures n <= |entries|
  {
    if entries == [] then 0
    else
      var e := entries[|entries| - 1];
      CountWith(text, attendance, entries[..|entries| - 1]) + if e.timeBlock == text && e.attendance == attendance then 1 else 0
  }

  /** The number of entries for a block text, whatever their code. */
  function CountText(text: string, entries: seq<BlockRegistration>): (n: nat)
    ensures n <= |entries|
  {
    if entries == [] then 0
    else CountText(text, entries[..|entries| - 1]) + if entries[|entries| - 1].timeBlock == text then 1 else 0
  }

  /** The (block text, code) pair of every entry, in order. */
  function Pairs(entries: seq<BlockRegistration>): (ps: seq<(string, string)>)
    ensures |ps| == |entries|
  {
    seq(|entries|, i requires 0 <= i < |entries| => (entries[i].timeBlock, entries[i].attendance))
  }

  /** registration_count: the decimal count of the entries for the block with that code. */
  function RegistrationCount(b: TimeBlock, attendance: string, entries: seq<BlockRegistration>): string
  {
    NatToString(CountWith(b.text, attendance, entries))
  }

  /** missing_count: the decimal of the registrations less the entries for the block (it may be negative). */
  function MissingCount(b: TimeBlock, regs: seq<Registration>, entries: seq<BlockRegistration>): string
  {
    IntToString(|regs| - CountText(b.text, entries))
  }

  /** The count is how often the (text, code) pair occurs among the entries. */
  lemma {:induction false} CountWithIsMultiplicity(text: string, attendance: string, entries: seq<BlockRegistration>)
    ensures CountWith(text, attendance, entries) == multiset(Pairs(entries))[(text, attendance)]
  {
    if entries != [] {
      var init := entries[..|entries| - 1];
      CountWithIsMultiplicity(text, attendance, init);
      assert Pairs(entries) == Pairs(init) + [(entries[|entries| - 1].timeBlock, entries[|entries| - 1].attendance)];
    }
  }

  /** The per-text count is how often the text occurs among the entries. */
  lemma {:induction false} CountTextIsMultiplicity(text: string, entries: seq<BlockRegistration>)
    ensures CountText(text, entries) == multiset(Utils.Texts(entries))[text]
  {
    if entries != [] {
      var init := entries[..|entries| - 1];
      CountTextIsMultiplicity(text, init);
      assert Utils.Texts(entries) == Utils.Texts(init) + [entries[|entries| - 1].timeBlock];
    }
  }

  /**
   * When every stored code is Yes, Maybe or No, a block's Yes, Maybe and No
   * counts add up to its entries, and with the missing number to the number
   * of registrations.
   */
  lemma {:induction false} TallyAddsUp(text: string, regs: seq<Registration>, entries: seq<BlockRegistration>)
    requires Utils.ValidCodes(entries)
    ensures CountWith(text, AttendanceYes, entries) + CountWith(text, AttendanceMaybe, entries) +
            CountWith(text, AttendanceNo, entries) == CountText(text, entries)
    ensures CountWith(text, AttendanceYes, entries) + CountWith(text, AttendanceMaybe, entries) +
            CountWith(text, AttendanceNo, entries) + (|regs| - CountText(text, entries)) == |regs|
  {
    if entries != [] {
      var init := entries[..|entries| - 1];
      assert Utils.ValidCodes(init) by {
        forall i | 0 <= i < |init| ensures init[i].attendance in {AttendanceMaybe, AttendanceYes, AttendanceNo} {
          assert init[i] == entries[i];
        }
      }
      TallyAddsUp(text, regs, init);
      assert entries[|entries| - 1].attendance in {AttendanceMaybe, AttendanceYes, AttendanceNo};
    }
  }

  // ---------------------------------------------------------------------
  // Table cells

  /** The strings f(x) for the xs, concatenated in order. */
  function Concat<T>(f: T -> string, xs: seq<T>): string
  {
    if xs == [] then "" else Concat(f, xs[..|xs| - 1]) + f(xs[|xs| - 1])
  }

  /** Growing a prefix by one element appends that element's string. */
  lemma ConcatSnoc<T>(f: T -> string, xs: seq<T>, i: nat)
    requires i < |xs|
    ensures Concat(f, xs[..i + 1]) == Concat(f, xs[..i]) + f(xs[i])
  {
    assert xs[..i + 1][..i] == xs[..i];
  }

  /** Concatenation distributes over the concatenation of the inputs. */
  lemma {:induction false} ConcatAppend<T>(f: T -> string, xs: seq<T>, ys: seq<T>)
    ensures Concat(f, xs + ys) == Concat(f, xs) + Concat(f, ys)
    decreases |ys|
  {
    if ys != [] {
      assert (xs + ys)[..|xs + ys| - 1] == xs + ys[..|ys| - 1];
      ConcatAppend(f, xs, ys[..|ys| - 1]);
    } else {
      assert xs + ys == xs;
    }
  }

  /** The strings of all elements: those before position i, the one at i, those after. */
  lemma ConcatAround<T>(f: T -> string, xs: seq<T>, i: nat)
    requires i < |xs|
    ensures Concat(f, xs) == Concat(f, xs[..i]) + f(xs[i]) + Concat(f, xs[i + 1..])
  {
    assert xs == xs[..i + 1] + xs[i + 1..];
    ConcatAppend(f, xs[..i + 1], xs[i + 1..]);
    ConcatSnoc(f, xs, i);
  }

  /** Appending a joined piece is appending its parts one after the other. */
  lemma AppendAssoc(a: string, b: string, c: string)
    ensures a + (b + c) == (a + b) + c
  {
  }

  /** A header cell. */
  function Th(x: string): string
  {
    "<th>" + x + "</th>"
  }

  /** A data cell. */
  function Td(x: string): string
  {
    "<td>" + x + "</td>"
  }

  /** "Yes" for a true flag, "No" for a false one. */
  function YesNo(flag: bool): (s: string)
    ensures s == "Yes" <==> flag
    ensures s == "No" <==> !flag
  {
    if flag then "Yes" else "No"
  }

  // ---------------------------------------------------------------------
  // The totals table

  function BlockTexts(blocks: seq<TimeBlock>): (ts: seq<string>)
    ensures |ts| == |blocks| && forall i :: 0 <= i < |blocks| ==> ts[i] == blocks[i].text
  {
    seq(|blocks|, i requires 0 <= i < |blocks| => blocks[i].text)
  }

  /** One count per block, for one attendance code. */
  function Counts(blocks: seq<TimeBlock>, attendance: string, entries: seq<BlockRegistration>): (cs: seq<string>)
    ensures |cs| == |blocks| && forall i :: 0 <= i < |blocks| ==> cs[i] == RegistrationCount(blocks[i], attendance, entries)
  {
    seq(|blocks|, i requires 0 <= i < |blocks| => RegistrationCount(blocks[i], attendance, entries))
  }

  /** One missing number per block. */
  function Missings(blocks: seq<TimeBlock>, regs: seq<Registration>, entries: seq<BlockRegistration>): (ms: seq<string>)
    ensures |ms| == |blocks| && forall i :: 0 <= i < |blocks| ==> ms[i] == MissingCount(blocks[i], regs, entries)
  {
    seq(|blocks|, i requires 0 <= i < |blocks| => MissingCount(blocks[i], regs, entries))
  }

  /** The header row's cells: an empty corner, then one cell per block text. */
  function Header(blocks: seq<TimeBlock>): string
  {
    "<th></th>" + Concat(Th, BlockTexts(blocks))
  }

  /** A tally row: its label cell, then one count cell per block. */
  function TallyRow(name: string, counts: seq<string>): string
  {
    Td(name) + Concat(Td, counts)
  }

  /** The totals section: the header, then the Yes, Maybe, No and Missing rows. */
  function Totals(blocks: seq<TimeBlock>, regs: seq<Registration>, entries: seq<BlockRegistration>): string
  {
    "\n  <tr>" + Header(blocks) +
    "</tr>\n  <tr>" + TallyRow("Yes", Counts(blocks, AttendanceYes, entries)) +
    "</tr>\n  <tr>" + TallyRow("Maybe", Counts(blocks, AttendanceMaybe, entries)) +
    "</tr>\n  <tr>" + TallyRow("No", Counts(blocks, AttendanceNo, entries)) +
    "</tr>\n  <tr>" + TallyRow("Missing", Missings(blocks, regs, entries)) + "</tr>\n"
  }

  /** Block i has the header cell of its text, after the cells of the blocks before it. */
  lemma HeaderCellOfBlock(blocks: seq<TimeBlock>, i: nat)
    requires i < |blocks|
    ensures Concat(Th, BlockTexts(blocks)) ==
              Concat(Th, BlockTexts(blocks)[..i]) + Th(blocks[i].text) + Concat(Th, BlockTexts(blocks)[i + 1..])
  {
    ConcatAround(Th, BlockTexts(blocks), i);
  }

  /** In a Yes, Maybe or No row, block i has the cell of its own count, after the cells of the blocks before it. */
  lemma CountCellOfBlock(blocks: seq<TimeBlock>, code: string, entries: seq<BlockRegistration>, i: nat)
    requires i < |blocks|
    ensures Concat(Td, Counts(blocks, code, entries)) ==
              Concat(Td, Counts(blocks, code, entries)[..i]) + Td(RegistrationCount(blocks[i], code, entries)) +
              Concat(Td, Counts(blocks, code, entries)[i + 1..])
  {
    ConcatAround(Td, Counts(blocks, code, entries), i);
  }

  /** In the Missing row, block i has the cell of its own missing number, after the cells of the blocks before it. */
  lemma MissingCellOfBlock(blocks: seq<TimeBlock>, regs: seq<Registration>, entries: seq<BlockRegistration>, i: nat)
    requires i < |blocks|
    ensures Concat(Td, Missings(blocks, regs, entries)) ==
              Concat(Td, Missings(blocks, regs, entries)[..i]) + Td(MissingCount(blocks[i], regs, entries)) +
              Concat(Td, Missings(blocks, regs, entries)[i + 1..])
  {
    ConcatAround(Td, Missings(blocks, regs, entries), i);
  }

  /**
   * The loop of the totals branch of get_context_data: the header and the
   * four tally rows grow one cell per block.
   */
  method TallyRows(blocks: seq<TimeBlock>, regs: seq<Registration>, entries: seq<BlockRegistration>)
    returns (header: string, yes: string, maybe: string, no: string, missing: string)
    ensures header == Header(blocks)
    ensures yes == TallyRow("Yes", Counts(blocks, AttendanceYes, entries))
    ensures maybe == TallyRow("Maybe", Counts(blocks, AttendanceMaybe, entries))
    ensures no == TallyRow("No", Counts(blocks, AttendanceNo, entries))
    ensures missing == TallyRow("Missing", Missings(blocks, regs, entries))
  {
    TallyLabels();
    MissingHead();
    header := "<th></th>";
    yes := "<td>" + GetChoice(AttendanceYes, AttendanceChoices).value + "</td>";
    maybe := "<td>" + GetChoice(AttendanceMaybe, AttendanceChoices).value + "</td>";
    no := "<td>" + GetChoice(AttendanceNo, AttendanceChoices).value + "</td>";
    missing := "<td>Missing</td>";
    var i := 0;
    while i < |blocks|
      invariant 0 <= i <= |blocks|
      invariant header == "<th></th>" + Concat(Th, BlockTexts(blocks)[..i])
      invariant yes == Td("Yes") + Concat(Td, Counts(blocks, AttendanceYes, entries)[..i])
      invariant maybe == Td("Maybe") + Concat(Td, Counts(blocks, AttendanceMaybe, entries)[..i])
      invariant no == Td("No") + Concat(Td, Counts(blocks, AttendanceNo, entries)[..i])
      invariant missing == Td("Missing") + Concat(Td, Missings(blocks, regs, entries)[..i])
    {
      var block := blocks[i];
      TallyRowsStep(blocks, regs, entries, i);
      header := header + Th(block.text);
      yes := yes + Td(RegistrationCount(block, AttendanceYes, entries));
      maybe := maybe + Td(RegistrationCount(block, AttendanceMaybe, entries));
      no := no + Td(RegistrationCount(block, AttendanceNo, entries));
      missing := missing + Td(MissingCount(block, regs, entries));
      i := i + 1;
    }
    WholePrefix(BlockTexts(blocks));
    WholePrefix(Counts(blocks, AttendanceYes, entries));
    WholePrefix(Counts(blocks, AttendanceMaybe, entries));
    WholePrefix(Counts(blocks, AttendanceNo, entries));
    WholePrefix(Missings(blocks, regs, entries));
  }

  lemma WholePrefix<T>(xs: seq<T>)
    ensures xs[..|xs|] == xs
  {
  }

  /** The first cells of the tally rows are the labels of the three codes. */
  lemma TallyLabels()
    ensures GetChoice(AttendanceYes, AttendanceChoices).Ok? && "<td>" + GetChoice(AttendanceYes, AttendanceChoices).value + "</td>" == Td("Yes")
    ensures GetChoice(AttendanceMaybe, AttendanceChoices).Ok? && "<td>" + GetChoice(AttendanceMaybe, AttendanceChoices).value + "</td>" == Td("Maybe")
    ensures GetChoice(AttendanceNo, AttendanceChoices).Ok? && "<td>" + GetChoice(AttendanceNo, AttendanceChoices).value + "</td>" == Td("No")
  {
    AttendanceLabels(AttendanceYes);
  }

  lemma MissingHead()
    ensures "<td>Missing</td>" == Td("Missing")
  {
  }

  /** One step of the tally loop: block i's cells join each row. */
  lemma TallyRowsStep(blocks: seq<TimeBlock>, regs: seq<Registration>, entries: seq<BlockRegistration>, i: nat)
    requires i < |blocks|
    ensures "<th></th>" + Concat(Th, BlockTexts(blocks)[..i + 1]) ==
              ("<th></th>" + Concat(Th, BlockTexts(blocks)[..i])) + Th(blocks[i].text)
    ensures Td("Yes") + Concat(Td, Counts(blocks, AttendanceYes, entries)[..i + 1]) ==
              (Td("Yes") + Concat(Td, Counts(blocks, AttendanceYes, entries)[..i])) + Td(RegistrationCount(blocks[i], AttendanceYes, entries))
    ensures Td("Maybe") + Concat(Td, Counts(blocks, AttendanceMaybe, entries)[..i + 1]) ==
              (Td("Maybe") + Concat(Td, Counts(blocks, AttendanceMaybe, entries)[..i])) + Td(RegistrationCount(blocks[i], AttendanceMaybe, entries))
    ensures Td("No") + Concat(Td, Counts(blocks, AttendanceNo, entries)[..i + 1]) ==
              (Td("No") + Concat(Td, Counts(blocks, AttendanceNo, entries)[..i])) + Td(RegistrationCount(blocks[i], AttendanceNo, entries))
    ensures Td("Missing") + Concat(Td, Missings(blocks, regs, entries)[..i + 1]) ==
              (Td("Missing") + Concat(Td, Missings(blocks, regs, entries)[..i])) + Td(MissingCount(blocks[i], regs, entries))
  {
    TallyStep(i, "<th></th>", Th, BlockTexts(blocks), blocks[i].text);
    TallyStep(i, Td("Yes"), Td, Counts(blocks, AttendanceYes, entries), RegistrationCount(blocks[i], AttendanceYes, entries));
    TallyStep(i, Td("Maybe"), Td, Counts(blocks, AttendanceMaybe, entries), RegistrationCount(blocks[i], AttendanceMaybe, entries));
    TallyStep(i, Td("No"), Td, Counts(blocks, AttendanceNo, entries), RegistrationCount(blocks[i], AttendanceNo, entries));
    TallyStep(i, Td("Missing"), Td, Missings(blocks, regs, entries), MissingCount(blocks[i], regs, entries));
  }

  /** One step of a growing row: the cell of value i joins the row of the first i values. */
  lemma TallyStep(i: nat, head: string, cell: string -> string, xs: seq<string>, x: string)
    requires i < |xs| && xs[i] == x
    ensures head + Concat(cell, xs[..i + 1]) == (head + Concat(cell, xs[..i])) + cell(x)
  {
    ConcatSnoc(cell, xs, i);
    AppendAssoc(head, Concat(cell, xs[..i]), cell(x));
  }

  /** The totals branch of get_context_data. */
  method TotalsSection(blocks: seq<TimeBlock>, regs: seq<Registration>, entries: seq<BlockRegistration>)
    returns (header: string, totals: string)
    ensures header == Header(blocks)
    ensures totals == Totals(blocks, regs, entries)
  {
    var yes, maybe, no, missing;
    header, yes, maybe, no, missing := TallyRows(blocks, regs, entries);
    totals := "\n  <tr>" + header + "</tr>\n  <tr>" + yes + "</tr>\n  <tr>" + maybe +
              "</tr>\n  <tr>" + no + "</tr>\n  <tr>" + missing + "</tr>\n";
  }

  // ---------------------------------------------------------------------
  // The details table

  /** reg_entries: each block text of the rows mapped to the code of its last row. */
  function RegEntries(rows: seq<BlockRegistration>): map<string, string>
  {
    if rows == [] then map[]
    else RegEntries(rows[..|rows| - 1])[rows[|rows| - 1].timeBlock := rows[|rows| - 1].attendance]
  }

  /** reg_entries holds a text exactly when some row has it, with the last such row's code. */
  lemma {:induction false} RegEntriesAreLast(rows: seq<BlockRegistration>, text: string)
    ensures text in RegEntries(rows) <==> Forms.LastAttendance(text, rows).Some?
    ensures text in RegEntries(rows) ==> RegEntries(rows)[text] == Forms.LastAttendance(text, rows).value
  {
    if rows != [] {
      RegEntriesAreLast(rows[..|rows| - 1], text);
    }
  }

  /** The cell of a code: its label, or the error get_choice raises. */
  function LabelCell(code: string): Result<string>
  {
    match GetChoice(code, AttendanceChoices)
    case Err(e) => Err(e)
    case Ok(name) => Ok(Td(name))
  }

  /** One block's cell in a registration's row. */
  function DetailCell(text: string, regEntries: map<string, string>): Result<string>
  {
    if text in regEntries then LabelCell(regEntries[text]) else Ok(Td("Missing"))
  }

  /** One cell per block, in order; the first cell that raises ends the row. */
  function DetailCells(blocks: seq<TimeBlock>, regEntries: map<string, string>): Result<string>
  {
    if blocks == [] then Ok("")
    else
      match DetailCells(blocks[..|blocks| - 1], regEntries)
      case Err(e) => Err(e)
      case Ok(cells) =>
        match DetailCell(blocks[|blocks| - 1].text, regEntries)
        case Err(e) => Err(e)
        case Ok(c) => Ok(cells + c)
  }

  /** One registration's row: its holder's name, then its cells. */
  function DetailRow(reg: Registration, blocks: seq<TimeBlock>, entries: seq<BlockRegistration>): Result<string>
  {
    match DetailCells(blocks, RegEntries(Forms.RowsOf(reg.id, entries)))
    case Err(e) => Err(e)
    case Ok(cells) => Ok("\n  <tr><td>" + Utils.FriendlyUsername(reg.user) + "</td>" + cells + "</tr>")
  }

  /** One row per registration, in order; the first row that raises ends the table. */
  function DetailRows(regs: seq<Registration>, blocks: seq<TimeBlock>, entries: seq<BlockRegistration>): Result<string>
  {
    if regs == [] then Ok("")
    else
      match DetailRows(regs[..|regs| - 1], blocks, entries)
      case Err(e) => Err(e)
      case Ok(rows) =>
        match DetailRow(regs[|regs| - 1], blocks, entries)
        case Err(e) => Err(e)
        case Ok(row) => Ok(rows + row)
  }

  /** The details section under a given header. */
  function Details(header: string, regs: seq<Registration>, blocks: seq<TimeBlock>, entries: seq<BlockRegistration>): Result<string>
  {
    match DetailRows(regs, blocks, entries)
    case Err(e) => Err(e)
    case Ok(rows) => Ok("\n  <tr>" + header + "</tr>" + rows + "\n")
  }

  /** With no entry of the registration for the block, the block's cell reads "Missing". */
  lemma DetailCellMissing(regId: nat, entries: seq<BlockRegistration>, text: string)
    requires forall e :: e in entries && e.registration == regId ==> e.timeBlock != text
    ensures DetailCell(text, RegEntries(Forms.RowsOf(regId, entries))) == Ok(Td("Missing"))
  {
    var rows := Forms.RowsOf(regId, entries);
    Forms.RowsOfMembers(regId, entries);
    assert forall i :: 0 <= i < |rows| ==> rows[i].timeBlock != text by {
      forall i | 0 <= i < |rows| ensures rows[i].timeBlock != text {
        assert rows[i] in rows;
      }
    }
    Forms.LastAttendanceFound(text, rows);
    RegEntriesAreLast(rows, text);
  }

  /**
   * With one entry per block text, the block of a registration's entry shows
   * that entry's label (or raises for an unknown code).
   */
  lemma DetailCellOfEntry(regId: nat, entries: seq<BlockRegistration>, e: BlockRegistration)
    requires Forms.DistinctTexts(entries, regId) && e in entries && e.registration == regId
    ensures DetailCell(e.timeBlock, RegEntries(Forms.RowsOf(regId, entries))) == LabelCell(e.attendance)
  {
    Forms.LastAttendanceOfDistinct(entries, regId, e);
    RegEntriesAreLast(Forms.RowsOf(regId, entries), e.timeBlock);
  }

  /** Every value of reg_entries is the code of one of the rows. */
  lemma {:induction false} RegEntriesValues(rows: seq<BlockRegistration>, text: string)
    requires text in RegEntries(rows)
    ensures exists i :: 0 <= i < |rows| && RegEntries(rows)[text] == rows[i].attendance
  {
    var init := rows[..|rows| - 1];
    if text != rows[|rows| - 1].timeBlock {
      RegEntriesValues(init, text);
      var i :| 0 <= i < |init| && RegEntries(init)[text] == init[i].attendance;
      assert init[i] == rows[i];
    }
  }

  /** The cells of a row exist when every code in reg_entries is a known one. */
  lemma {:induction false} DetailCellsOk(blocks: seq<TimeBlock>, regEntries: map<string, string>)
    requires forall t :: t in regEntries ==> regEntries[t] in {AttendanceMaybe, AttendanceYes, AttendanceNo}
    ensures DetailCells(blocks, regEntries).Ok?
  {
    if blocks != [] {
      DetailCellsOk(blocks[..|blocks| - 1], regEntries);
      var text := blocks[|blocks| - 1].text;
      if text in regEntries {
        AttendanceLabels(regEntries[text]);
      }
    }
  }

  /** The rows of the details table exist when every stored code is a known one. */
  lemma {:induction false} DetailRowsOk(regs: seq<Registration>, blocks: seq<TimeBlock>, entries: seq<BlockRegistration>)
    requires Utils.ValidCodes(entries)
    ensures DetailRows(regs, blocks, entries).Ok?
  {
    if regs != [] {
      DetailRowsOk(regs[..|regs| - 1], blocks, entries);
      var reg := regs[|regs| - 1];
      var rows := Forms.RowsOf(reg.id, entries);
      Forms.RowsOfMembers(reg.id, entries);
      forall t | t in RegEntries(rows) ensures RegEntries(rows)[t] in {AttendanceMaybe, AttendanceYes, AttendanceNo} {
        RegEntriesValues(rows, t);
        var i :| 0 <= i < |rows| && RegEntries(rows)[t] == rows[i].attendance;
        assert rows[i] in rows;
        var k :| 0 <= k < |entries| && entries[k] == rows[i];
      }
      DetailCellsOk(blocks, RegEntries(rows));
    }
  }

  /** The details table exists whenever every stored code is Yes, Maybe or No. */
  lemma DetailsOk(header: string, regs: seq<Registration>, blocks: seq<TimeBlock>, entries: seq<BlockRegistration>)
    requires Utils.ValidCodes(entries)
    ensures Details(header, regs, blocks, entries).Ok?
  {
    DetailRowsOk(regs, blocks, entries);
  }

  /** Once a block's cell has raised, the later blocks do not matter. */
  lemma {:induction false} DetailCellsErrorStands(blocks: seq<TimeBlock>, regEntries: map<string, string>, k: nat)
    requires k <= |blocks| && DetailCells(blocks[..k], regEntries).Err?
    ensures DetailCells(blocks, regEntries) == DetailCells(blocks[..k], regEntries)
    decreases |blocks| - k
  {
    if k < |blocks| {
      assert blocks[..k + 1][..k] == blocks[..k];
      DetailCellsErrorStands(blocks, regEntries, k + 1);
    } else {
      assert blocks[..k] == blocks;
    }
  }

  /** Once a registration's row has raised, the later registrations do not matter. */
  lemma {:induction false} DetailRowsErrorStands(regs: seq<Registration>, blocks: seq<TimeBlock>, entries: seq<BlockRegistration>, k: nat)
    requires k <= |regs| && DetailRows(regs[..k], blocks, entries).Err?
    ensures DetailRows(regs, blocks, entries) == DetailRows(regs[..k], blocks, entries)
    decreases |regs| - k
  {
    if k < |regs| {
      assert regs[..k + 1][..k] == regs[..k];
      DetailRowsErrorStands(regs, blocks, entries, k + 1);
    } else {
      assert regs[..k] == regs;
    }
  }

  /** The reg_entries loop over one registration's rows. */
  method CollectRegEntries(rows: seq<BlockRegistration>) returns (regEntries: map<string, string>)
    ensures regEntries == RegEntries(rows)
  {
    regEntries := map[];
    var i := 0;
    while i < |rows|
      invariant 0 <= i <= |rows|
      invariant regEntries == RegEntries(rows[..i])
    {
      assert rows[..i + 1][..i] == rows[..i];
      regEntries := regEntries[rows[i].timeBlock := rows[i].attendance];
      i := i + 1;
    }
    assert rows[..i] == rows;
  }

  /** The per-block loop of one registration's row. */
  method RowCells(blocks: seq<TimeBlock>, regEntries: map<string, string>) returns (r: Result<string>)
    ensures r == DetailCells(blocks, regEntries)
  {
    var cells := "";
    var i := 0;
    while i < |blocks|
      invariant 0 <= i <= |blocks|
      invariant DetailCells(blocks[..i], regEntries) == Ok(cells)
    {
      assert blocks[..i + 1][..i] == blocks[..i];
      var block := blocks[i];
      if block.text in regEntries {
        var choice := GetChoice(regEntries[block.text], AttendanceChoices);
        if choice.Err? {
          DetailCellsErrorStands(blocks, regEntries, i + 1);
          return Err(choice.error);
        }
        cells := cells + Td(choice.value);
      } else {
        cells := cells + Td("Missing");
      }
      i := i + 1;
    }
    assert blocks[..i] == blocks;
    r := Ok(cells);
  }

  /** The details branch of get_context_data: one row per registration under the header. */
  method DetailsSection(header: string, regs: seq<Registration>, blocks: seq<TimeBlock>, entries: seq<BlockRegistration>)
    returns (r: Result<string>)
    ensures r == Details(header, regs, blocks, entries)
  {
    var details := "\n  <tr>" + header + "</tr>";
    var i := 0;
    while i < |regs|
      invariant 0 <= i <= |regs|
      invariant DetailRows(regs[..i], blocks, entries).Ok?
      invariant details == "\n  <tr>" + header + "</tr>" + DetailRows(regs[..i], blocks, entries).value
    {
      assert regs[..i + 1][..i] == regs[..i];
      var entry := regs[i];
      var regEntries := CollectRegEntries(Forms.RowsOf(entry.id, entries));
      var cells := RowCells(blocks, regEntries);
      if cells.Err? {
        DetailRowsErrorStands(regs, blocks, entries, i + 1);
        return Err(cells.error);
      }
      var row := "\n  <tr><td>" + Utils.FriendlyUsername(entry.user) + "</td>" + cells.value + "</tr>";
      AppendAssoc("\n  <tr>" + header + "</tr>", DetailRows(regs[..i], blocks, entries).value, row);
      details := details + row;
      i := i + 1;
    }
    assert regs[..i] == regs;
    r := Ok(details + "\n");
  }

  // ---------------------------------------------------------------------
  // The payments table

  const PaymentsHeader: string := "\n  <tr><th></th><th>Donation Option</th><th>Donation Received</th></tr>"

  /** A registration's payment row: name, payment option, and whether it was received. */
  function PaymentRow(reg: Registration): string
  {
    "\n  <tr><td>" + Utils.FriendlyUsername(reg.user) + "</td>" + "<td>" + reg.payment + "</td>" +
    "<td>" + YesNo(reg.paymentReceived) + "</td></tr>"
  }

  /** The payments section: the header, then one row per registration, in order. */
  function Payments(regs: seq<Registration>): string
  {
    PaymentsHeader + Concat(PaymentRow, regs) + "\n"
  }

  /**
   * Registration i has its own row in the payments table, between the rows of
   * the registrations before it and those after it.
   */
  lemma PaymentsRowPerRegistration(regs: seq<Registration>, i: nat)
    requires i < |regs|
    ensures Payments(regs) == PaymentsHeader + Concat(PaymentRow, regs[..i]) + PaymentRow(regs[i]) +
                              Concat(PaymentRow, regs[i + 1..]) + "\n"
  {
    ConcatAround(PaymentRow, regs, i);
    var a, b, c := Concat(PaymentRow, regs[..i]), PaymentRow(regs[i]), Concat(PaymentRow, regs[i + 1..]);
    AppendAssoc(PaymentsHeader, a + b, c);
    AppendAssoc(PaymentsHeader, a, b);
  }

  /** The payments branch of get_context_data. */
  method PaymentsSection(regs: seq<Registration>) returns (payments: string)
    ensures payments == Payments(regs)
  {
    payments := PaymentsHeader;
    var i := 0;
    while i < |regs|
      invariant 0 <= i <= |regs|
      invariant payments == PaymentsHeader + Concat(PaymentRow, regs[..i])
    {
      ConcatSnoc(PaymentRow, regs, i);
      var entry := regs[i];
      var received := if entry.paymentReceived then "Yes" else "No";
      var row := "\n  <tr><td>" + Utils.FriendlyUsername(entry.user) + "</td>" + "<td>" + entry.payment +
                 "</td>" + "<td>" + received + "</td></tr>";
      AppendAssoc(PaymentsHeader, Concat(PaymentRow, regs[..i]), row);
      payments := payments + row;
      i := i + 1;
    }
    assert regs[..i] == regs;
    payments := payments + "\n";
  }

  // ---------------------------------------------------------------------
  // The contact table

  const ContactHeader: string := "\n  <tr><th>Name</th><th>Username</th><th>E-mail</th><th>Registered</th></tr>"

  /** Registration.objects.filter(user=u): the user's registrations of every con, in order. */
  function RegistrationsOfUser(u: User, regs: seq<Registration>): (mine: seq<Registration>)
    ensures |mine| <= |regs|
  {
    if regs == [] then []
    else (if SameUser(regs[0].user, u) then [regs[0]] else []) + RegistrationsOfUser(u, regs[1..])
  }

  /** The filter keeps exactly the user's registrations; it is empty exactly when none is the user's. */
  lemma {:induction false} RegistrationsOfUserMembers(u: User, regs: seq<Registration>)
    ensures forall r :: r in RegistrationsOfUser(u, regs) <==> r in regs && SameUser(r.user, u)
    ensures RegistrationsOfUser(u, regs) == [] <==> forall i :: 0 <= i < |regs| ==> !SameUser(regs[i].user, u)
  {
    if regs != [] {
      RegistrationsOfUserMembers(u, regs[1..]);
      assert forall r :: r in regs <==> r == regs[0] || r in regs[1..];
      assert forall i :: 1 <= i < |regs| ==> regs[i] == regs[1..][i - 1];
    }
  }

  /** A user's contact row: full name, username, e-mail, and whether they hold a registration. */
  function ContactRow(u: User, regs: seq<Registration>): string
  {
    "\n  <tr><td>" + u.firstName + " " + u.lastName + "</td><td>" + u.username + "</td><td>" + u.email +
    "</td><td>" + YesNo(RegistrationsOfUser(u, regs) != []) + "</td></tr>"
  }

  function ContactRows(users: seq<User>, regs: seq<Registration>): string
  {
    if users == [] then "" else ContactRows(users[..|users| - 1], regs) + ContactRow(users[|users| - 1], regs)
  }

  function ContactInfo(users: seq<User>, regs: seq<Registration>): string
  {
    ContactHeader + ContactRows(users, regs) + "\n"
  }

  /** A contact row reads "Yes" exactly when some registration, of any con, is the user's. */
  lemma ContactRegistered(u: User, regs: seq<Registration>)
    ensures ContactRow(u, regs) == "\n  <tr><td>" + u.firstName + " " + u.lastName + "</td><td>" + u.username +
                                   "</td><td>" + u.email + "</td><td>" +
                                   (if exists i :: 0 <= i < |regs| && SameUser(regs[i].user, u) then "Yes" else "No") +
                                   "</td></tr>"
  {
    RegistrationsOfUserMembers(u, regs);
  }

  /** The contact branch of get_context_data. */
  method ContactSection(users: seq<User>, regs: seq<Registration>) returns (contactInfo: string)
    ensures contactInfo == ContactInfo(users, regs)
  {
    contactInfo := ContactHeader;
    var i := 0;
    while i < |users|
      invariant 0 <= i <= |users|
      invariant contactInfo == ContactHeader + ContactRows(users[..i], regs)
    {
      assert users[..i + 1][..i] == users[..i];
      var entry := users[i];
      var registered := "No";
      if RegistrationsOfUser(entry, regs) != [] {
        registered := "Yes";
      }
      var row := "\n  <tr><td>" + entry.firstName + " " + entry.lastName + "</td><td>" +
                 entry.username + "</td><td>" + entry.email + "</td><td>" + registered + "</td></tr>";
      assert users[..i + 1][..i] == users[..i];
      AppendAssoc(ContactHeader, ContactRows(users[..i], regs), row);
      contactInfo := contactInfo + row;
      i := i + 1;
    }
    assert users[..i] == users;
    contactInfo := contactInfo + "\n";
  }

  // ---------------------------------------------------------------------
  // AttendanceList.get_context_data

  const TotalsKey: string := "totals"
  const DetailsKey: string := "details"
  const PaymentsKey: string := "payments"
  const ContactKey: string := "contact_info"

  lemma SectionKeysDistinct()
    ensures TotalsKey != DetailsKey && TotalsKey != PaymentsKey && TotalsKey != ContactKey
    ensures DetailsKey != PaymentsKey && DetailsKey != ContactKey && PaymentsKey != ContactKey
  {
    assert |TotalsKey| == 6 && |DetailsKey| == 7 && |PaymentsKey| == 8 && |ContactKey| == 12;
  }

  /** One `if key not in kwargs` step: a supplied value stays, a missing one is added. */
  function Fill(context: map<string, string>, key: string, value: string): (r: map<string, string>)
    ensures r.Keys == context.Keys + {key}
    ensures forall k :: k in context ==> r[k] == context[k]
    ensures key !in context ==> r[key] == value
  {
    if key in context then context else context[key := value]
  }

  /**
   * The context: each of the four sections that the caller did not supply is
   * computed over the scheduled blocks. The details header is the full one
   * only when the totals were computed here; a supplied "totals" leaves it as
   * the bare corner cell. A supplied "details" is never recomputed, so then
   * the placeholder given to Fill is ignored.
   */
  function ContextData(kwargs: map<string, string>, blocks: seq<TimeBlock>, regs: seq<Registration>,
                       entries: seq<BlockRegistration>, users: seq<User>): Result<map<string, string>>
  {
    var scheduled := Utils.ScheduledBlocks(blocks);
    var header := if TotalsKey in kwargs then "<th></th>" else Header(scheduled);
    var details := Details(header, regs, scheduled, entries);
    if DetailsKey !in kwargs && details.Err? then Err(details.error)
    else
      var withTotals := Fill(kwargs, TotalsKey, Totals(scheduled, regs, entries));
      var withDetails := Fill(withTotals, DetailsKey, if details.Ok? then details.value else "");
      var withPayments := Fill(withDetails, PaymentsKey, Payments(regs));
      Ok(Fill(withPayments, ContactKey, ContactInfo(users, regs)))
  }

  /** get_context_data: fills in the missing sections of kwargs in place. */
  method GetContextData(kwargs: map<string, string>, blocks: seq<TimeBlock>, regs: seq<Registration>,
                        entries: seq<BlockRegistration>, users: seq<User>) returns (r: Result<map<string, string>>)
    ensures r == ContextData(kwargs, blocks, regs, entries, users)
  {
    SectionKeysDistinct();
    var scheduled := Utils.ScheduledBlocks(blocks);
    var context := kwargs;
    var header := "<th></th>";
    if TotalsKey !in context {
      var totals;
      header, totals := TotalsSection(scheduled, regs, entries);
      context := context[TotalsKey := totals];
    }
    assert context == Fill(kwargs, TotalsKey, Totals(scheduled, regs, entries));
    if DetailsKey !in context {
      var details := DetailsSection(header, regs, scheduled, entries);
      if details.Err? {
        return Err(details.error);
      }
      context := context[DetailsKey := details.value];
    }
    if PaymentsKey !in context {
      var payments := PaymentsSection(regs);
      context := context[PaymentsKey := payments];
    }
    if ContactKey !in context {
      var contactInfo := ContactSection(users, regs);
      context := context[ContactKey := contactInfo];
    }
    r := Ok(context);
  }

  /** Only a details table that is computed here can raise. */
  lemma ContextFailsOnlyOnDetails(kwargs: map<string, string>, blocks: seq<TimeBlock>, regs: seq<Registration>,
                                  entries: seq<BlockRegistration>, users: seq<User>)
    ensures ContextData(kwargs, blocks, regs, entries, users).Err? <==>
              DetailsKey !in kwargs &&
              Details(if TotalsKey in kwargs then "<th></th>" else Header(Utils.ScheduledBlocks(blocks)),
                      regs, Utils.ScheduledBlocks(blocks), entries).Err?
  {
  }

  /** A section the caller supplied is passed through untouched, and the four sections are always present afterwards. */
  lemma ContextKeepsGiven(kwargs: map<string, string>, blocks: seq<TimeBlock>, regs: seq<Registration>,
                          entries: seq<BlockRegistration>, users: seq<User>)
    ensures ContextData(kwargs, blocks, regs, entries, users).Ok? ==>
              ContextData(kwargs, blocks, regs, entries, users).value.Keys ==
                kwargs.Keys + {TotalsKey, DetailsKey, PaymentsKey, ContactKey} &&
              forall k :: k in kwargs ==> ContextData(kwargs, blocks, regs, entries, users).value[k] == kwargs[k]
  {
  }

  /** The sections computed here: the totals, details, payments and contact tables. */
  lemma ContextComputesMissing(kwargs: map<string, string>, blocks: seq<TimeBlock>, regs: seq<Registration>,
                               entries: seq<BlockRegistration>, users: seq<User>)
    requires ContextData(kwargs, blocks, regs, entries, users).Ok?
    ensures TotalsKey !in kwargs ==>
              ContextData(kwargs, blocks, regs, entries, users).value[TotalsKey] == Totals(Utils.ScheduledBlocks(blocks), regs, entries)
    ensures DetailsKey !in kwargs && TotalsKey !in kwargs ==>
              Details(Header(Utils.ScheduledBlocks(blocks)), regs, Utils.ScheduledBlocks(blocks), entries) ==
              Ok(ContextData(kwargs, blocks, regs, entries, users).value[DetailsKey])
    ensures DetailsKey !in kwargs && TotalsKey in kwargs ==>
              Details("<th></th>", regs, Utils.ScheduledBlocks(blocks), entries) ==
              Ok(ContextData(kwargs, blocks, regs, entries, users).value[DetailsKey])
    ensures PaymentsKey !in kwargs ==> ContextData(kwargs, blocks, regs, entries, users).value[PaymentsKey] == Payments(regs)
    ensures ContactKey !in kwargs ==> ContextData(kwargs, blocks, regs, entries, users).value[ContactKey] == ContactInfo(users, regs)
  {
    SectionKeysDistinct();
  }

  /** With only known codes stored, the context is always built. */
  lemma ContextOkWithValidCodes(kwargs: map<string, string>, blocks: seq<TimeBlock>, regs: seq<Registration>,
                                entries: seq<BlockRegistration>, users: seq<User>)
    requires Utils.ValidCodes(entries)
    ensures ContextData(kwargs, blocks, regs, entries, users).Ok?
  {
    var scheduled := Utils.ScheduledBlocks(blocks);
    DetailsOk(if TotalsKey in kwargs then "<th></th>" else Header(scheduled), regs, scheduled, entries);
  }

  // ---------------------------------------------------------------------
  // NotAlreadyPaid.dispatch

  const ProfilePage: string := "convention:user_profile"

  /** i is the position of the user's first registration. */
  predicate FirstOfUser(u: User, regs: seq<Registration>, i: int)
  {
    0 <= i < |regs| && SameUser(regs[i].user, u) && forall j :: 0 <= j < i ==> !SameUser(regs[j].user, u)
  }

  /** The user's first registration heads the filtered list. */
  lemma {:induction false} FirstOfUserHeads(u: User, regs: seq<Registration>, i: int)
    requires FirstOfUser(u, regs, i)
    ensures RegistrationsOfUser(u, regs) != [] && RegistrationsOfUser(u, regs)[0] == regs[i]
  {
    if i > 0 {
      assert !SameUser(regs[0].user, u);
      assert FirstOfUser(u, regs[1..], i - 1) by {
        forall j | 0 <= j < i - 1 ensures !SameUser(regs[1..][j].user, u) {
          assert regs[1..][j] == regs[j + 1];
        }
      }
      FirstOfUserHeads(u, regs[1..], i - 1);
    }
  }

  /**
   * dispatch: the user's first registration (any con) is looked up by
   * indexing, which raises when there is none; a paid one sends the user to
   * the profile, an unpaid one lets the payment view proceed.
   */
  function NotAlreadyPaid(u: User, regs: seq<Registration>): (r: Result<Response>)
    ensures r.Err? <==> forall i :: 0 <= i < |regs| ==> !SameUser(regs[i].user, u)
    ensures r.Err? ==> r.error == IndexError
    ensures r.Ok? ==> r.value == Redirect(ProfilePage) || r.value == Proceed
  {
    var mine := RegistrationsOfUser(u, regs);
    RegistrationsOfUserMembers(u, regs);
    if |mine| == 0 then Err(IndexError)
    else if mine[0].paymentReceived then Ok(Redirect(ProfilePage))
    else Ok(Proceed)
  }

  /** The redirect happens exactly when the user's first registration is paid. */
  lemma NotAlreadyPaidRule(u: User, regs: seq<Registration>, i: int)
    requires FirstOfUser(u, regs, i)
    ensures NotAlreadyPaid(u, regs) == Ok(if regs[i].paymentReceived then Redirect(ProfilePage) else Proceed)
  {
    FirstOfUserHeads(u, regs, i);
  }
}
