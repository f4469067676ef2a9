# shadowcon convention site: a Dafny model of its rules

ShadowCon's Django site runs a small gaming convention. Attendees register for the
convention's time blocks (Friday night, Saturday morning, ...) as "Yes", "Maybe" or "No".
Game masters submit games, and staff place games on a schedule grid and read attendance
tallies. The repository holds two generations of the code:

- the newer `convention` application;
- the older `con` application under `wsgi/shadowcon/con`.

This project models the rules at the core of both generations:

- the display labels of blocks, slots and games;
- choice-label lookup;
- the schedule grid arithmetic and the staff rescheduling request;
- selection of the current con;
- the per-user attendance summaries;
- the attendance form: its fields, its validation and its save, which reconciles entries in
  the newer code and only appends in the older;
- referral-code validation;
- the staff attendance tables;
- the older view mixins, including the waiting-list rule.

The database is modelled as sequences of records, in the order the ORM query returns them.
Code that changes stored rows is modelled by classes:

- `Models.Database` and `LegacyModels.Database` hold the registration and entry tables;
- `GameViews.GameTable` holds the games;
- `Forms.AttendanceForm` and `LegacyForms.AttendanceForm` hold the form's state.

Their methods are proved against specification functions, and the properties are proved
about those functions. Python exceptions become the `Err` case of `Wrappers.Result`, which
carries an `Error` naming the exception (`ValueError`, `IndexError`, `TypeError`,
`ValidationError`, `IntegrityError`, `DoesNotExist`, `Exception`).

Modules follow the source files:

| module | source file |
|---|---|
| `Text` | the Python string operations the code relies on: ASCII only, space is the only whitespace |
| `Models` | `convention/models.py` and `convention/fields.py` |
| `Utils` | `convention/utils.py` |
| `Forms` | `convention/forms.py` |
| `GameViews` | `convention/views/games.py`, plus the grouping in `wsgi/shadowcon/con/views/games.py` |
| `UserViews` | `convention/views/user.py` |
| `LegacyModels` | `wsgi/shadowcon/con/models.py` |
| `LegacyUtils` | `wsgi/shadowcon/con/utils.py` |
| `LegacyCommon` | `wsgi/shadowcon/con/views/common.py` |
| `LegacyForms` | `wsgi/shadowcon/con/forms.py` |
| `LegacyUserViews` | `wsgi/shadowcon/con/views/user.py` |
| `LegacyTemplateTags` | `wsgi/shadowcon/con/templatetags/user.py` |

The older models' `TimeBlock`, `TimeSlot` and `Game` display methods are the same code as
the newer ones, so they are modelled once, in `Models`. The table cites the newer copy. The
older copies are in wsgi/shadowcon/con/models.py:
- `weekdays`: lines 34-41;
- `first_word`: lines 51-52;
- `get_combined`: lines 54-59;
- `header_target`: lines 109-110;
- `friendly_block` and `combined_time`: lines 112-122.

## Model

| member | source | states |
|---|---|---|
| Text.StripEmptyIffBlank | convention/utils.py:6-11 | `strip()` yields "" exactly when the string is all whitespace, which is what the friendly-name fallback tests |
| Text.StripIdempotent | convention/utils.py:6-11 | stripping twice is stripping once |
| Text.WordsEmptyIffBlank | convention/models.py:72-73 | `split()` yields no token exactly for a blank text |
| Text.WordsOfJoin | convention/models.py:72-79 | splitting words joined by single spaces gives the words back |
| Text.SplitOnFirst | convention/forms.py:112 | `key.split("_")` splits at the first separator, and the text before it is the first part |
| Text.DigitsRoundTrip | convention/models.py:69-70 | `str()` of a natural number reads back as that number |
| Text.IntToStringInjective | convention/models.py:69-70 | different integers print differently; the sign shows exactly for negatives |
| Models.GetChoice | convention/models.py:26-31 | Ok exactly when some pair has the value, and then the label of the FIRST such pair; otherwise ValueError("No choice found for: value") |
| Models.FirstMatch | convention/models.py:26-29 | the index of the first pair with the value, or the length when there is none |
| Models.AttendanceLabels | convention/models.py:211-218 | M, Y and N label as "Maybe", "Yes" and "No", and only those three codes have a label |
| Models.FirstWord | convention/models.py:72-73 | token 0 of the whitespace split; IndexError exactly for a blank text |
| Models.SecondWord | convention/models.py:75-76 | token 1 of the split; IndexError exactly when there are fewer than two tokens |
| Models.HasSecondWord | convention/models.py:78-79 | true exactly when a second word exists |
| Models.TimeBlockStr | convention/models.py:69-70 | the text, then "[", then the sort id, then "]" |
| Models.TimeBlockStrDeterminesSortId | wsgi/shadowcon/con/models.py:48-49 | two blocks with the same text print alike only when their sort ids agree |
| Models.GetCombined | convention/models.py:81-86 | IndexError exactly for a blank text, which has no first word; otherwise a label that ends with the slot's text |
| Models.CombinedUsesDayNameIffWeekday | convention/models.py:81-86 | for a block with a first word, the label is "first word + space + slot" exactly when that word lower-cases to a weekday, and "text : slot" otherwise |
| Models.AmPmPrint | convention/models.py:89-97 | at least 4 characters, ending in "M", "t" or "n", with no "-" (so a slot's " - " separator is unambiguous) |
| Models.AmPmPrintReadsBack | convention/models.py:89-97 | the printed label reads back as the whole hour it was printed from |
| Models.AmPmPrintWholeHour | wsgi/shadowcon/con/models.py:62-70 | 0 is "Midnight", 12 is "Noon", 1..11 are "h AM", 13..23 are "(h-12) PM" |
| Models.TimeSlotStr | convention/models.py:104-105 | at least 11 characters, ending with the last letter of the stop label |
| Models.TimeSlotStrReadsBack | convention/models.py:104-105 | the label splits at its one "-" into "start label " and " stop label", which read back as the whole start and stop hours |
| Models.TimeSlotStrExample | wsgi/shadowcon/con/models.py:77-78 | a 4:00-12:00 slot prints as "4 AM - Noon" |
| Models.Slug | convention/models.py:167 | the same length as its input; alphanumerics are kept and everything else becomes "_" |
| Models.HeaderTarget | convention/models.py:166-167 | the length of the stripped title, only lower-case letters, digits and "_", each alphanumeric lower-cased in place |
| Models.HeaderTargetIdempotent | convention/models.py:166-167 | an anchor is its own anchor |
| Models.HeaderTargetExample | convention/models.py:166-167 | " A Game: Title " becomes "a_game__title" |
| Models.FriendlyBlock | convention/models.py:169-173 | the block's text, or "Not Scheduled" without a block |
| Models.CombinedTime | convention/models.py:175-179 | the only exception is the IndexError of `get_combined` |
| Models.CombinedTimeNotScheduledIff | convention/models.py:175-179 | "Not Scheduled" exactly when the block or the slot is missing; with both set, the block's `get_combined` label for the slot, which is IndexError exactly for a blank block text |
| Utils.FriendlyUsername | convention/utils.py:6-11 | the username when "first last" is blank; otherwise "first last" stripped, which is non-empty and starts and ends with a non-space |
| Utils.FriendlyUsernameFullName | convention/utils.py:6-11 | a first and a last name give "first last" |
| Utils.FriendlyUsernameFirstOnly | convention/utils.py:6-11 | a first name alone gives that name, without the trailing space |
| Utils.FriendlyUsernameLastOnly | convention/utils.py:6-11 | a last name alone gives that name, without the leading space |
| Utils.FriendlyUsernameNoNames | convention/utils.py:6-11 | no names give the username |
| Utils.Dateless | convention/utils.py:15 | exactly the stored cons without a date |
| Utils.Latest | convention/utils.py:21-24 | a stored con whose date is the greatest |
| Utils.GetCurrentCon | convention/utils.py:14-24 | the one dateless con; ValueError for several dateless cons; ValueError("No con object found") without cons; otherwise a stored con with the latest date |
| Utils.CurrentConIsStored | convention/utils.py:14-24 | the current con is stored, and the lookup fails exactly without cons or with several dateless ones |
| Utils.IsRegistrationOpen | convention/utils.py:31-33 | fails exactly when the current con cannot be found; otherwise true exactly when registration_opens is set and not after now |
| Utils.GamesOf | convention/utils.py:36-40 | exactly the games of the user |
| Utils.IsPreRegOpen | convention/utils.py:36-40 | true exactly when a saved user owns at least one game; false for no user or an unsaved one |
| Utils.ScheduledBlocks | convention/utils.py:56 | exactly the blocks whose text does not start with "Not", in the order of the given block sequence |
| Utils.RegistrationsOf | convention/utils.py:47 | exactly the registrations of the user for the con |
| Utils.EntriesOf | convention/utils.py:50 | exactly the stored entries of those registrations |
| Utils.Attended | convention/utils.py:50-53 | the entries not marked "N", each one of the stored entries |
| Utils.EntryLineShape | convention/utils.py:52-54 | one entry's line is Ok exactly for the codes M, Y and N, and the failure is ValueError; an M or Y entry's line is "block: Maybe" or "block: Yes" |
| Utils.EntryLinesShape | convention/utils.py:50-54 | Ok exactly when every code is known, ValueError otherwise; then the k-th line is "block: Maybe" or "block: Yes" for the k-th entry not marked "N", in stored order, and there are no other lines |
| Utils.EntryLinesErrorStands | convention/utils.py:50-54 | once an entry raises, the later entries change nothing |
| Utils.SummaryShape | convention/utils.py:56-59 | the partial marker appears at most once, last, and exactly when a scheduled block has no entry |
| Utils.NotRegisteredSummary | convention/utils.py:46-61 | a user without a registration for the current con gets exactly ["Not Registered"] |
| Utils.Summarize | convention/utils.py:50-59 | the two loops build the entry lines, then add the marker at the first missing block and stop |
| Utils.GetRegistration | convention/utils.py:43-63 | `get_registration` as a whole: the current con, the user's registrations, then the summary |
| Utils.IndexOf | convention/utils.py:56-57 | the position of a member of a sequence |
| Forms.ReferralsWith | convention/forms.py:39 | empty exactly when no referral has the code; otherwise it starts with the first referral that has it |
| Forms.IndexOfFirst | convention/forms.py:43 | the position of the first referral with the code |
| Forms.FirstWithCodeUnique | convention/forms.py:43 | there is only one first referral with a code |
| Forms.CleanReferralCode | convention/forms.py:33-47 | "" passes unchanged; "invalid referral" exactly when no referral has the code; "already used referral" exactly when the first one has a referred user; otherwise the code is returned unchanged |
| Forms.BlockKey | convention/forms.py:70 | a field key starts with "block_" |
| Forms.BlockKeyInjective | convention/forms.py:73-74 | different block ids give different field keys |
| Forms.FirstBlock | convention/forms.py:68-70 | the first stored block with the text (or, for the save at line 112, the id) asked for; None exactly when no block has it |
| Forms.KeyText | convention/forms.py:112 | a field key's block text is the text of a stored block |
| Forms.KeyTextOfBlockKey | convention/forms.py:112 | the key of block id reads back as that block's text, or raises when no block has the id |
| Forms.FieldFor | convention/forms.py:72-76 | a block's field has key "block_id", is labelled by the block's text, and starts at the code the data holds for it or "Y" |
| Forms.FormFieldsFollowBlocks | convention/forms.py:72-76 | the fields are exactly one per scheduled block, in block order |
| Forms.SameIdSameBlock | convention/forms.py:72-76 | with unique ids, a block is determined by its id |
| Forms.ScheduledBlocksDistinct | convention/forms.py:72-76 | scheduled blocks carry distinct ids, so the field keys are distinct |
| Forms.LastAttendanceFound | convention/forms.py:66-70 | the stored code for a block text is the code of the last entry with that text, or None exactly when there is none |
| Forms.StoredInitial | convention/forms.py:63-73 | without submitted data, the field of the first block with its text starts at the last stored code for that text, or "Y" |
| Forms.TimeBlockFields | convention/forms.py:78-79 | exactly the fields whose key starts with "block_", in field order |
| Forms.TimeBlockFieldsOfBlockFields | convention/forms.py:78-79 | block fields pass through unchanged |
| Forms.FormFieldsAreBlockFields | convention/forms.py:78-79 | every field of the newer form is a block field |
| Forms.Clean | convention/forms.py:126-137 | ValidationError("invalid data") exactly when no "block_" value differs from "N"; otherwise the cleaned data is returned unchanged |
| Forms.RowsOfMembers | convention/forms.py:108 | exactly the entries of the registration |
| Forms.OldRegsMembers | convention/forms.py:107-109 | old_regs maps exactly the texts of the registration's entries, each to one of those entries |
| Forms.DeleteMembers | convention/forms.py:121-122 | deleting by ids keeps exactly the entries whose id is not listed |
| Forms.WantsErrorStands | convention/forms.py:111-112 | once a field key names no block, the later fields change nothing |
| Forms.WantMapHolds | convention/forms.py:111-116 | with distinct block texts, every wanted block maps to its own code |
| Forms.NewRowsFromWants | convention/forms.py:117-119 | every created entry comes from a wanted block that had no entry |
| Forms.NewRowsCoverWants | convention/forms.py:117-119 | every wanted block without an entry gets one created entry |
| Forms.StepsClosed | convention/forms.py:111-119 | the field loop, step by step, equals the closed form: patch the existing entries, then append the new ones |
| Forms.ReconcileKeepsOthers | convention/forms.py:107-122 | the entries of other registrations are kept, and nothing is added for them |
| Forms.ReconcileKeepsIds | convention/forms.py:113-116 | an existing entry for a form block keeps its id and takes the field's code |
| Forms.ReconcileAddsNew | convention/forms.py:117-119 | a form block without an entry gets a new entry with the field's code |
| Forms.ReconcileCoversForm | convention/forms.py:107-122 | afterwards every form block has an entry of the registration holding the field's code |
| Forms.ReconcileOnlyWanted | convention/forms.py:121-122 | afterwards every entry of the registration is for a form block; the obsolete ones are deleted |
| Forms.ReconcileKeepsTable | convention/forms.py:107-122 | ids stay unique and below the next id, the registration's block texts stay distinct, and the next id only grows |
| Forms.DeleteNone | convention/forms.py:121-122 | deleting nothing keeps the table |
| Forms.DeleteTwice | convention/forms.py:121-122 | two deletions are one deletion of both id sets |
| Forms.FormPairs | convention/forms.py:111-119 | one (block text, code) pair per scheduled block |
| Forms.FormWants | convention/forms.py:111-112 | a form built from blocks with unique ids reads back as those pairs, without error |
| Forms.LastAttendanceOfDistinct | convention/forms.py:66-70 | with one entry per text, reading back finds each entry's own code |
| Forms.SavedFormReopens | convention/forms.py:51-122 | after a save, reopening the form shows every block at the code that was saved |
| Forms.Staged | convention/forms.py:92-104 | an existing registration only has last_updated stamped; a new one gets the current con, the first payment option, the dates now and no payment received; no con or no payment option raises |
| Forms.Upsert | convention/forms.py:105 | `registration.save()` replaces the row with its id, or adds it, and keeps the others |
| Forms.NoticeWording | convention/forms.py:81-82 | the Initial and Updated subjects and the revision comments differ, and the subject ends with the user's name |
| Forms.CollectOldRegs | convention/forms.py:107-109 | the loop builds exactly old_regs |
| Forms.ApplyFields | convention/forms.py:111-119 | the field loop fails exactly where reading a key fails, and otherwise performs the reconcile steps |
| Forms.DeleteObsolete | convention/forms.py:121-122 | the loop deletes exactly the ids left in old_regs |
| Forms.ReadBack | convention/forms.py:63-70 | the loop builds exactly the initial data from the stored entries |
| Forms.BlockFields | convention/forms.py:72-76 | the loop builds exactly one field per scheduled block |
| Forms.AttendanceForm.constructor | convention/forms.py:51-76 | the user's first registration for the con, the friendly name, and the fields built from the submitted or stored data |
| Forms.OpenAttendanceForm | convention/forms.py:51-56 | ValueError exactly when `get_current_con` fails; otherwise a new form for the user at the current con, a stored con, holding the user's first registration there |
| Forms.AttendanceForm.Save | convention/forms.py:92-124 | a failed lookup leaves the tables unchanged; otherwise the registration is written and the entries become the reconcile of the old entries; the notice carries the Initial/Update wording and the summary read back afterwards |
| GameViews.BlockOffset | convention/views/games.py:135-139 | IndexError exactly for a blank block text |
| GameViews.BlockOffsetByDay | convention/views/games.py:129-139 | the day offset (-18, 6, 30 or 100) of the lower-cased first word, plus 24 exactly when the second word lower-cases to "midnight" |
| GameViews.BlockOffsetOfWords | convention/views/games.py:135-139 | for a text made of words, the offset of the first word, plus 24 when the next word is "midnight" in any case; one-word texts never get the 24 |
| GameViews.BlockOffsetFriday | convention/views/games.py:129-139 | "Friday Night" is -18 |
| GameViews.BlockOffsetFridayMidnight | convention/views/games.py:129-139 | "Friday MidniGHT" is 6 |
| GameViews.BlockOffsetSaturdayMidnight | convention/views/games.py:129-139 | "Saturday midnight" is 30 |
| GameViews.BlockOffsetUnknown | convention/views/games.py:129-139 | an unknown day is 100 |
| GameViews.Start | convention/views/games.py:142-146 | 100 when the block or the slot is missing, otherwise the block's offset plus the slot's start |
| GameViews.StartFridayNight | convention/views/games.py:142-146 | Friday night at 18:00 starts at 0 |
| GameViews.StartSaturdayMidnight | convention/views/games.py:142-146 | Saturday midnight at 0:00 starts at 30 |
| GameViews.StartUnplaced | convention/views/games.py:142-146 | a game without a block starts at 100 |
| GameViews.Width | convention/views/games.py:149-156 | 0 without a slot; otherwise in [0, 24) with start + width equal to stop or to stop + 24 |
| GameViews.WidthUnique | convention/views/games.py:149-156 | that width is the only value in [0, 24) with this property |
| GameViews.WidthExamples | convention/views/games.py:149-156 | widths of sample slots, including one that wraps past midnight |
| GameViews.GetIndex | convention/views/games.py:159-163 | -1 exactly when the object is absent; otherwise the first position holding it |
| GameViews.RefIndex | convention/views/games.py:178-180 | a game's reference becomes -1 exactly when it is missing or not listed, and otherwise the row with its id |
| GameViews.GridOf | convention/views/games.py:167-189 | IndexError exactly when a listed block or a placed game's block has no first word; otherwise one row per location, game, block and slot |
| GameViews.GridReferencesResolve | convention/views/games.py:174-189 | each game row's indexes lead back to the location, block and slot rows with the game's referenced ids |
| GameViews.Incoming | convention/views/games.py:208-210 | an absent field means None, an id of a stored row means that row, and an unknown id raises DoesNotExist |
| GameViews.Assign | convention/views/games.py:212 | `setattr` changes that one reference and nothing else |
| GameViews.ReassignErrorStands | convention/views/games.py:207-214 | a failed lookup ends the loop |
| GameViews.ReassignKeys | convention/views/games.py:198-214 | the three keys are looked up in order, the first failure is the result, and otherwise all three references are overwritten |
| GameViews.ChangedNamesSorted | convention/views/games.py:216 | the changed names are strictly sorted |
| GameViews.ChangedNamesExactly | convention/views/games.py:213-214 | a field is named exactly when its old value differs from its new one |
| GameViews.CommentFrame | convention/views/games.py:221 | the comment starts with "AJAX Schedule Submission - " and ends with " Changed" |
| GameViews.SplitJoined | convention/views/games.py:221 | splitting the joined names at the commas gives the names back, with their ", " separators |
| GameViews.CommentRoundTrip | convention/views/games.py:221 | the changed names can be read back from the comment |
| GameViews.CommentOfNothing | convention/views/games.py:221 | with no change the comment has two spaces before "Changed" |
| GameViews.CommentOfTwo | convention/views/games.py:221 | the comment for a location and block change |
| GameViews.ScheduleChecksPermissionFirst | convention/views/games.py:192-196 | an unauthenticated caller, then a caller who is neither staff nor superuser, is refused before any game is read |
| GameViews.ChangedNamesFit | convention/views/games.py:198 | the field names are words without commas |
| GameViews.ScheduleOverwrites | convention/views/games.py:198-217 | a successful request overwrites all three references with the posted ones, keeps every other field and stamps last_scheduled |
| GameViews.ScheduleComment | convention/views/games.py:216-221 | the comment names exactly the changed fields, sorted, and they read back from it |
| GameViews.ScheduleWithoutChange | convention/views/games.py:216-221 | with nothing changed, the game is still stamped and the comment has two spaces |
| GameViews.GameTable.constructor | convention/views/games.py:203 | the table of stored games |
| GameViews.GameTable.Post | convention/views/games.py:191-223 | a refused or failed request saves nothing; otherwise exactly the one game is replaced by its rescheduled value and the comment is returned |
| GameViews.GroupKeysMembers | wsgi/shadowcon/con/views/games.py:23-31 | the group keys are exactly the games' friendly blocks |
| GameViews.GroupKeysDistinct | wsgi/shadowcon/con/views/games.py:27-28 | each key appears once |
| GameViews.Members | wsgi/shadowcon/con/views/games.py:29 | every game in a group has the group's key |
| GameViews.GroupOneMore | wsgi/shadowcon/con/views/games.py:25-29 | one more game adds its key if new and goes to the end of its group |
| GameViews.GroupByBlock | convention/views/games.py:46-58 | the loop builds exactly the keys and, for each, the games with that label, in query order |
| GameViews.GroupedCountAddGame | wsgi/shadowcon/con/views/games.py:25-29 | one more game adds one grouped game |
| GameViews.GroupsPartitionGames | wsgi/shadowcon/con/views/games.py:23-31 | the groups together hold every game exactly once |
| UserViews.CountWith | convention/views/user.py:52-53 | at most the number of entries |
| UserViews.CountWithIsMultiplicity | convention/views/user.py:52-53 | the count is the number of entries with that block text and that code |
| UserViews.CountTextIsMultiplicity | convention/views/user.py:56-57 | the subtracted count is the number of entries with that block text |
| UserViews.TallyAddsUp | convention/views/user.py:72-80 | with known codes, Yes + Maybe + No is the block's entries, and with Missing it is the number of registrations |
| UserViews.YesNo | convention/views/user.py:103 | "Yes" exactly when the payment was received, "No" exactly when it was not |
| UserViews.HeaderCellOfBlock | convention/views/user.py:73-74 | the header has one cell per scheduled block, in order |
| UserViews.CountCellOfBlock | convention/views/user.py:75-77 | each count row has one cell per block, holding that block's count |
| UserViews.MissingCellOfBlock | convention/views/user.py:78 | the Missing row has one cell per block, holding that block's missing count |
| UserViews.TallyRows | convention/views/user.py:66-78 | the loop builds the header and the Yes, Maybe, No and Missing rows cell by cell |
| UserViews.TotalsSection | convention/views/user.py:72-80 | the totals table is those five rows |
| UserViews.RegEntriesAreLast | convention/views/user.py:86-88 | reg_entries holds, for each block text, the code of the registration's last entry with it |
| UserViews.DetailCellMissing | convention/views/user.py:94-95 | a block without an entry of the registration shows "Missing" |
| UserViews.DetailCellOfEntry | convention/views/user.py:91-93 | a block with an entry shows the label of its code |
| UserViews.DetailRowsOk | convention/views/user.py:82-98 | with known codes, the details table never raises |
| UserViews.CollectRegEntries | convention/views/user.py:86-88 | the loop builds exactly reg_entries |
| UserViews.RowCells | convention/views/user.py:90-95 | the loop builds one cell per block, or the first label error |
| UserViews.DetailsSection | convention/views/user.py:82-98 | the details loop builds one row per registration |
| UserViews.PaymentsRowPerRegistration | convention/views/user.py:100-106 | the payments table has each registration's row in order, between the header and the final newline |
| UserViews.PaymentsSection | convention/views/user.py:100-106 | the loop builds exactly that table |
| UserViews.RegistrationsOfUserMembers | convention/views/user.py:112 | exactly the user's registrations, empty exactly when the user has none |
| UserViews.ContactRegistered | convention/views/user.py:110-115 | a user's contact row shows "Yes" exactly when the user has a registration |
| UserViews.ContactSection | convention/views/user.py:108-116 | the loop builds exactly the contact table |
| UserViews.Fill | convention/views/user.py:72 | a section already in kwargs is left untouched, and a missing one is added |
| UserViews.GetContextData | convention/views/user.py:63-118 | the method computes exactly the specified context |
| UserViews.ContextFailsOnlyOnDetails | convention/views/user.py:82-98 | only a details table computed here can raise |
| UserViews.ContextKeepsGiven | convention/views/user.py:72-116 | given sections pass through unchanged, and all four sections are present afterwards |
| UserViews.ContextComputesMissing | convention/views/user.py:72-116 | each section absent from kwargs is the computed table; the details header is empty when the totals were given |
| UserViews.ContextOkWithValidCodes | convention/views/user.py:63-118 | with known codes the context is always built |
| UserViews.FirstOfUserHeads | convention/views/user.py:138 | the user's first registration heads the filtered list |
| UserViews.NotAlreadyPaid | convention/views/user.py:136-142 | IndexError exactly when the user has no registration; otherwise a redirect to the profile or proceed |
| UserViews.NotAlreadyPaidRule | convention/views/user.py:136-142 | redirect exactly when the user's first registration has its payment received, otherwise proceed |
| LegacyModels.Matching | wsgi/shadowcon/con/models.py:12 | the filter keeps only pairs with the value |
| LegacyModels.MatchingStartsAtFirstMatch | wsgi/shadowcon/con/models.py:12 | the filter is empty exactly when nothing matches, and otherwise starts at the first match |
| LegacyModels.GetChoice | wsgi/shadowcon/con/models.py:11-13 | the same label as the newer lookup when one matches; with no match it fails by indexing (IndexError), not ValueError |
| LegacyModels.FirstMatchIsNewChoice | convention/models.py:26-31 | the newer lookup succeeds exactly when a first match exists, and returns its label |
| LegacyModels.LabelAt | wsgi/shadowcon/con/models.py:11-13 | the label at the first position with the value |
| LegacyModels.PaymentLabelsCrossed | wsgi/shadowcon/con/models.py:126-135 | as written, the PayPal code is labelled "Paying by Venmo" and the Venmo code "Paying by Paypal" |
| LegacyModels.PaymentLabelsMatchCodes | wsgi/shadowcon/con/models.py:126-135 | with the labels uncrossed, every payment code shows its own method |
| LegacyModels.RegistrationsOfUserMembers | wsgi/shadowcon/con/views/user.py:55 | exactly the user's registrations, empty exactly when the user has none |
| LegacyModels.InsertRegistration | wsgi/shadowcon/con/models.py:136-140 | saving a new registration fails with IntegrityError exactly when its required `last_updated` is unset; otherwise the row is appended |
| LegacyModels.EntriesOfMembers | wsgi/shadowcon/con/templatetags/user.py:15 | exactly the stored entries of the given registrations |
| LegacyUtils.FriendlyUsername | wsgi/shadowcon/con/utils.py:6-10 | the username when "first last" is blank; otherwise exactly "first last", unstripped |
| LegacyUtils.FriendlyUsernameStripsToNewer | wsgi/shadowcon/con/utils.py:6-10 | the older name strips to the newer one, and both fall back to the username together |
| LegacyUtils.FriendlyUsernameKeepsSpace | wsgi/shadowcon/con/utils.py:6-10 | a first name alone keeps its trailing space, unlike the newer name |
| LegacyUtils.GetConValue | wsgi/shadowcon/con/utils.py:13-21 | "No con object found" exactly for no con, "Multiple con objects found" exactly for several, otherwise the one con's attribute |
| LegacyUtils.RegistrationOpen | wsgi/shadowcon/con/utils.py:24-26 | TypeError unless there is exactly one con; then open exactly when registration_opens is not after now |
| LegacyUtils.RegistrationStaysOpen | wsgi/shadowcon/con/utils.py:24-26 | once open, registration stays open |
| LegacyCommon.RegistrationOpenDispatch | wsgi/shadowcon/con/views/common.py:8-12 | fails exactly without a unique con; otherwise the not-open page exactly before registration opens, and proceed exactly after |
| LegacyCommon.IsStaffDispatch | wsgi/shadowcon/con/views/common.py:15-19 | the not-staff page exactly for a user who is neither staff nor superuser, otherwise proceed |
| LegacyCommon.Position | wsgi/shadowcon/con/views/common.py:28-30 | the first position of the user's registration, or None exactly when the user has none |
| LegacyCommon.NotOnWaitingList | wsgi/shadowcon/con/views/common.py:25-38 | the loop with its found flag and break answers as the waiting-list rule |
| LegacyCommon.NotFoundIffUnregistered | wsgi/shadowcon/con/views/common.py:35-36 | the not-found page exactly when no registration is the user's |
| LegacyCommon.WaitListRule | wsgi/shadowcon/con/views/common.py:28-34 | with one con and the user first at position i: wait list exactly when i >= max_attendees, otherwise proceed |
| LegacyCommon.ZeroLimitWaitListsAll | wsgi/shadowcon/con/views/common.py:32-33 | with max_attendees 0 every registered user is wait-listed |
| LegacyCommon.NoConNoWaitList | wsgi/shadowcon/con/views/common.py:32 | without exactly one con the limit is a message string, and under Python 2 nobody is wait-listed |
| LegacyCommon.OnlyFirstEntryMatters | wsgi/shadowcon/con/views/common.py:29-34 | registrations after the user's first are never looked at |
| LegacyForms.FormFields | wsgi/shadowcon/con/forms.py:48-53 | one field per scheduled block, as in the newer form, then the "Test" field |
| LegacyForms.TimeBlockFieldsDropTest | wsgi/shadowcon/con/forms.py:53-56 | `time_block_fields` drops the "Test" field and keeps every block field in order |
| LegacyForms.StoredOrYes | wsgi/shadowcon/con/forms.py:39-49 | without data, the field of the first block with its text starts at the last stored code for that text, or "Y" |
| LegacyForms.SaveRowsFollowWants | wsgi/shadowcon/con/forms.py:70-73 | save fails exactly where a key names no block; otherwise it creates one entry per field, in field order |
| LegacyForms.SaveRowsErrorStands | wsgi/shadowcon/con/forms.py:71-73 | after a failing field, no later field creates an entry |
| LegacyForms.SaveRowsStep | wsgi/shadowcon/con/forms.py:71-73 | each field either creates its entry or ends save with its error |
| LegacyForms.SavesOneEntryPerBlock | wsgi/shadowcon/con/forms.py:70-73 | on a built form, save creates exactly one entry per scheduled block, holding the block's text and its field's code |
| LegacyForms.AttendanceForm.constructor | wsgi/shadowcon/con/forms.py:30-53 | the friendly name, and the fields built from the submitted data or from the entries of the user's registrations |
| LegacyForms.AttendanceForm.Save | wsgi/shadowcon/con/forms.py:58-75 | only appends, deleting nothing; the entries already stored stay when a key fails; the result is the Initial or Updated subject |
| LegacyUserViews.AttendingMembers | wsgi/shadowcon/con/views/user.py:14-17 | `get_registration` keeps exactly the Yes and Maybe entries |
| LegacyUserViews.AttendingCount | wsgi/shadowcon/con/views/user.py:14-17 | with known codes, that is as many as the summary lines |
| LegacyUserViews.GetRegistration | wsgi/shadowcon/con/views/user.py:14-17 | exactly the user's Yes and Maybe entries |
| LegacyUserViews.EntryLinesAgree | wsgi/shadowcon/con/views/user.py:24-28 | the older entry lines equal the newer ones; only an unknown code's error differs (IndexError) |
| LegacyUserViews.EntryLinesErrorStands | wsgi/shadowcon/con/views/user.py:24-28 | once an entry raises, later entries change nothing |
| LegacyUserViews.ProfileShape | wsgi/shadowcon/con/views/user.py:22-39 | never empty: "Not Registered" alone exactly with no attended entry and a missing block; "Not Attending" alone exactly with no attended entry and none missing; the partial marker exactly with both |
| LegacyUserViews.CollectLines | wsgi/shadowcon/con/views/user.py:24-28 | the loop builds the entry lines and item_dict keyed by every entry's block |
| LegacyUserViews.CollectStep | wsgi/shadowcon/con/views/user.py:24-28 | one more entry adds nothing for "N", adds its line, or raises |
| LegacyUserViews.MarkMissing | wsgi/shadowcon/con/views/user.py:30-36 | the marker loop appends, once, "Not Registered" when no line was collected or the partial marker otherwise, exactly when a scheduled block has no entry |
| LegacyUserViews.ShowProfile | wsgi/shadowcon/con/views/user.py:20-45 | `show_profile`'s registration list is the specified profile: the entry lines, then the marker, and "Not Attending" alone when both are absent |
| LegacyUserViews.WithoutEntriesOfMembers | wsgi/shadowcon/con/views/user.py:63 | exactly the registration's entries are deleted |
| LegacyUserViews.PrepareCreatesOrClears | wsgi/shadowcon/con/views/user.py:54-63 | a new cash-paying registration, dated and stamped now and accepted by the save, exactly when the user has none; otherwise the first registration is kept and exactly its entries are deleted |
| LegacyUserViews.FormValidAsWritten | wsgi/shadowcon/con/views/user.py:54-67 | a user without a registration gets the IntegrityError of saving one without `last_updated`, and nothing changes; otherwise the entries are deleted and save, called without new_entry, raises TypeError |
| LegacyUserViews.FormValidAsWrittenLosesAttendance | wsgi/shadowcon/con/views/user.py:62-65 | as written, resubmitting leaves the user's registration with no entry at all |
| LegacyUserViews.FormValid | wsgi/shadowcon/con/views/user.py:54-67 | with `last_updated` stamped and save given new_entry: create or clear, then save's entries are appended and the view redirects |
| LegacyUserViews.FormValidLeavesOneEntryPerBlock | wsgi/shadowcon/con/views/user.py:54-67 | with save given new_entry, the registration ends with exactly one entry per scheduled block, holding the field's code |
| LegacyTemplateTags.NotRegisteredExactly | wsgi/shadowcon/con/templatetags/user.py:12-13 | a user without a registration gets exactly ["Not Registered"] |
| LegacyTemplateTags.AttendanceIsSummary | wsgi/shadowcon/con/templatetags/user.py:14-25 | for a registered user: the entry lines, then the partial marker at most once, last, exactly when a block is missing; only an unknown code fails (IndexError) |
| LegacyTemplateTags.OnlyNoEntriesGiveEmpty | wsgi/shadowcon/con/templatetags/user.py:12-29 | only "N" entries covering every block give an empty list, with no "Not Attending" fallback |
| LegacyTemplateTags.MarkPartial | wsgi/shadowcon/con/templatetags/user.py:22-25 | the marker loop appends the marker once, at the first missing block |
| LegacyTemplateTags.UserAttendance | wsgi/shadowcon/con/templatetags/user.py:8-30 | the tag's loops compute the specified attendance |

## Left out

- The ORM is not modelled. Queries are sequences given in the order the query returns them, and `Model.save()`/`delete()` are updates of the `Database` and `GameTable` classes. Transactions, `reversion` revisions and `set_user` are left out; a revision is its comment string, and a failed save leaves the tables as they were.
- A block sequence given to the model stands for the result of the `order_by('sort_id')` block query, so its order is the sort order. The same sequence also fixes the order in which the unordered `filter(text__exact=...)` and `filter(id=...)` lookups find blocks: their `[0]` is the first block in it with that text or id.
- Mail is not modelled. Only the subject wording and the summary the mail reads back are stated; `mail_list`, the message bodies and `contact/utils.py` are left out.
- Dates, times and time zones are integer instants. `strftime` and `astimezone` are not modelled, so the form's `registration_str` is left out.
- Hours are exact reals in [0, 23.99], following `HourField` (convention/fields.py:6-8). IEEE rounding is left out. `am_pm_print`'s `%d` is the whole part of the hour.
- Text is ASCII, and the space is the only whitespace character for `split`, `strip` and `lower`.
- `BlockRegistration.time_block` holds the block's text in both code bases. The older models declare it a foreign key (wsgi/shadowcon/con/models.py:156), but the older form stores and looks up texts, and its views print `time_block.text`; the model follows the texts. Under the declared foreign key, the older source fails. The older `save` assigns a block's text to the foreign key (wsgi/shadowcon/con/forms.py:72-73), which Django refuses with ValueError. The older constructor's lookup `TimeBlock.objects.filter(text__exact=entry.time_block)` (wsgi/shadowcon/con/forms.py:44) compares texts with a block row, so it finds nothing and the stored codes are never read back. The model does not capture either failure.
- The older `BlockRegistration.objects.filter(user=...)` (wsgi/shadowcon/con/views/user.py:15,24) names a field the model does not have. It is modelled as the entries of the user's registrations.
- The older view mixins import `is_registration_open`, which the older utils do not define. `RegistrationOpenDispatch` uses `registration_open`, the function that is defined there.
- The older `get_form_kwargs` passes the friendly-name string as the form's user (wsgi/shadowcon/con/views/user.py:72), and the form then reads name fields of that string. `LegacyForms.AttendanceForm.constructor` takes the user record instead, so that the view's later steps can be stated.
- The older `forms.py` imports `get_registration` from the older utils (wsgi/shadowcon/con/forms.py:7), which do not define it; it is defined in wsgi/shadowcon/con/views/user.py:14. Importing the older forms therefore raises ImportError. The model treats the import as succeeding. Its only caller, `send_mail`, is mail and is left out.
- The newer `SchedulerHandler.get` filters locations by `convention` (convention/views/games.py:169), but `Location` declares no such field (convention/models.py:108-112), so Django raises FieldError there. The model takes the locations as the result of that query.
- `Forms.AttendanceForm.constructor` takes the current con's id as a parameter, because a constructor cannot fail. `Forms.OpenAttendanceForm` models `__init__`'s `get_current_con()` (convention/forms.py:54): it returns that ValueError, or builds the form for the con that `Save` looks up again.
- The older form's free-text "Test" field is modelled with key "Test", an empty label and an empty initial value; its `max_length` and `required=False` are left out.
- The newer code queries `Registration.convention` and `Game.convention`, but `convention/models.py` does not declare them. The model gives a registration a convention id. The games are taken as the result of the con's game query.
- The newer `ScheduleView`'s `user_games` and `in_games` and `get_games_for_user` depend on a `GamePlayer` model that is not part of this model. Only the grouping by block is modelled.
- `get_absolute_url`, `Game.email_format`, `__str__` of `ConInfo`, `Game` and `Registration`, the `NewGameView` and `UpdateGameView` views, admin, urls, templates, the client JavaScript and the settings are outside the core and not modelled.
- `GameViews.BlockOffset`: its contract states only when it fails; `BlockOffsetByDay` and `BlockOffsetOfWords` state its value.
- `Models.GetCombined`: its contract states when it fails and that the label ends with the slot's text; `CombinedUsesDayNameIffWeekday` states which label is chosen.
- `Forms.KeyText`: its contract states only that a text it returns is stored; `KeyTextOfBlockKey` states its value on field keys. Keys that are not of the form "block_id" are outside what the form produces.
- `UserViews.CountWith`: its contract bounds the count; `CountWithIsMultiplicity` states its value.

## Findings

| source | as written | input that shows it | evidently intended | confidence | as-written member | corrected member |
|---|---|---|---|---|---|---|
| wsgi/shadowcon/con/models.py:133-134 | `PAYMENT_PAYPAL` is labelled "Paying by Venmo" and `PAYMENT_VENMO` "Paying by Paypal" | a registration with payment "P" prints "payment: Paying by Venmo" | each code labelled by the method it names | not executed | LegacyModels.PaymentLabelsCrossed | LegacyModels.PaymentLabelsMatchCodes |
| wsgi/shadowcon/con/views/user.py:65 | `form.save(registration)` omits `new_entry`, which `save` requires (wsgi/shadowcon/con/forms.py:70); the call raises TypeError after the old entries were deleted | a user with a registration and stored entries resubmits the attendance form; the defect is latent: it is reached only once the failures that come first are fixed (the ImportErrors at wsgi/shadowcon/con/forms.py:7 and wsgi/shadowcon/con/views/common.py:5, and the string user that `get_form_kwargs` passes at wsgi/shadowcon/con/views/user.py:72), which the model treats as fixed | `form.save(registration, new_entry)`, leaving one entry per scheduled block | not executed | LegacyUserViews.FormValidAsWrittenLosesAttendance | LegacyUserViews.FormValidLeavesOneEntryPerBlock |
| wsgi/shadowcon/con/views/user.py:57-60 | a new `Registration` is built without `last_updated`, a required column (wsgi/shadowcon/con/models.py:138), so `registration.save()` raises IntegrityError | a user with no registration submits the attendance form; the defect is latent: it is reached only once the failures that come first are fixed (the ImportErrors at wsgi/shadowcon/con/forms.py:7 and wsgi/shadowcon/con/views/common.py:5, and the string user that `get_form_kwargs` passes at wsgi/shadowcon/con/views/user.py:72), which the model treats as fixed | set `last_updated` to now as well, so the registration is stored and the form is saved | not executed | LegacyUserViews.FormValidAsWritten | LegacyUserViews.PrepareCreatesOrClears |
