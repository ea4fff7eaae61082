# Assignment deadline calendars, modelled in Dafny

The system reads a tab-separated file of assignment deadlines. Each line holds
a module code, an assignment code, a recommended date and a deadline, written
`DD/MM/YYYY`. The lines are turned into iCalendar data in two ways:

- `calendar_server.py` imports the file into an SQLite table `deadlines`. It
  then serves one subscription feed per module group (`/calendar/cm1.ics`, …),
  a combined feed (`/calendar/all.ics`), and two JSON endpoints.
- `deadlines_to_ics.py` writes one static `.ics` file per module group. The
  year and month named in the file names come from the command line.

The module groups are the ten prefixes CM1, CM2, CS1, CS2, CB, CP1, CP2, CP3,
SP and SA. A line belongs to the first prefix that its upper-cased, stripped
module code starts with.

The project is laid out as follows:

- `base.dfy` (`Base`): `Option` and `Result`.
- `text.dfy` (`Text`): the Python string operations the code relies on:
  - `strip()`, `upper()`, `lower()`, `startswith()`;
  - `split('/')[-1]`, `replace('.ics', '')`;
  - decimal digits and `str(int)`;
  - the code-point order SQLite uses to sort text.
- `dates.dfy` (`Dates`):
  - `datetime.strptime` with `%d/%m/%Y` and with `%Y-%m-%d`;
  - `date.isoformat()`;
  - the proof that sorting ISO dates as text sorts them by date.
- `groups.dfy` (`ModuleGroups`): the ten group prefixes and the first-match
  search over them.
- `store.dfy` (`Store`): the table as the class `DeadlineTable`, with:
  - `import_from_tsv` as a loop over the lines, each one an `INSERT OR REPLACE`;
  - `get_deadlines_by_group`: filter, then `ORDER BY`;
  - `get_module_groups`.
- `server.dfy` (`CalendarServer`):
  - how `serve_calendar` turns a path into a group and a calendar name;
  - the events `generate_calendar` builds;
  - the routing of `do_GET`;
  - the `ALL` case of `serve_deadlines`;
  - the links of the landing page.
- `static_ics.dfy` (`StaticIcs`):
  - `parse_date`;
  - `generate_static_files`: the calendar map filled in a loop over the lines,
    whose inner loop over the keys stops at the first match, then the files
    written for non-empty calendars;
  - the defaults and checks `main` applies to `--year` and `--month`.

## Model

| member | source | states |
|---|---|---|
| Text.StripPadding | calendar_server.py:83 | `strip()` removes exactly the Python whitespace around a text that has none at its ends |
| Text.Strip | calendar_server.py:83 | `strip()`: the result has no whitespace at either end and is no longer than the input; Text.StripPadding states what it removes |
| Text.Upper | calendar_server.py:83 | `upper()` keeps the length and leaves no ASCII lower-case letter; it is specified through ModuleGroups.ClassifySpec and CalendarServer.UpperLower, and narrowed as said under Left out |
| Text.LastSegment | calendar_server.py:797 | `split('/')[-1]` is the suffix after the last `/`; it holds no `/`, and a `/` precedes it when it is not the whole path |
| Text.RemoveAllSuffix | calendar_server.py:802 | `replace('.ics', '')` on `name + '.ics'` gives back `name` when `name` holds no `.` |
| Text.ValueOfFixed | calendar_server.py:108-109 | a number below 10^w written with w zero-padded digits reads back as that number |
| Text.FixedOfValue | calendar_server.py:873 | a digit string is the zero-padded spelling of its own value at its own width |
| Text.NatToStringRoundTrip | deadlines_to_ics.py:36 | `str(year)` reads back as the year and has no leading zero |
| Text.StrLtIrreflexive | calendar_server.py:126 | the text order of `ORDER BY` is irreflexive |
| Text.StrLtTransitive | calendar_server.py:126 | the text order of `ORDER BY` is transitive |
| Text.StrLtTrichotomy | calendar_server.py:126 | any two texts are equal or ordered one way |
| Text.StrLtAsymmetric | calendar_server.py:126 | no two texts are ordered both ways |
| Dates.ParseDmy | calendar_server.py:92 | `strptime(..., '%d/%m/%Y')` returns only real calendar dates |
| Dates.FieldsUnique | calendar_server.py:92 | at most one split of a text into digit fields around the separator exists |
| Dates.ParseDmyOfJoin | calendar_server.py:92 | `d/m/yyyy` with 1-2 digit day and month parses to the date of those fields, if it is a real date |
| Dates.ParseDmyAccepts | calendar_server.py:92 | every valid date is accepted in each of its four paddings |
| Dates.DmyWithSpelled | calendar_server.py:92 | a text accepted at given day and month widths is that date spelled with that padding |
| Dates.ParseDmySpec | calendar_server.py:92-95 | a text parses to a date exactly when the date is valid and the text is one of its spellings |
| Dates.IsoFormat | calendar_server.py:108-109 | `isoformat()` is ten characters, with dashes at positions 4 and 7 |
| Dates.IsoRoundTrip | calendar_server.py:873 | `strptime(isoformat(d), '%Y-%m-%d')` gives `d` back for every valid date |
| Dates.ParseIso | calendar_server.py:873 | `strptime(..., '%Y-%m-%d')` returns only real calendar dates; Dates.ParseIsoSpec states exactly which texts it accepts |
| Dates.ParseIsoAccepts | calendar_server.py:873 | every spelling `%Y-%m-%d` allows for a real date parses to that date: the month with or without its zero, the day padded, unpadded or as a space and a digit |
| Dates.ParseIsoSpec | calendar_server.py:873 | `strptime(s, '%Y-%m-%d')` gives `d` exactly when `d` is a real date and `s` is four year digits, a one- or two-digit month and a day of one or two digits or a space and a digit, joined by dashes |
| Dates.ParseIsoSpacedDay | calendar_server.py:873 | a day written as a space and a digit 1-9 is accepted, as `%d` allows: `2026-01- 5` is 5 January 2026 |
| Dates.FixedOrder | calendar_server.py:126 | zero-padded numbers of one width sort as text as they do as numbers |
| Dates.DashJoinedOrder | calendar_server.py:126 | dash-joined fields of equal widths sort field by field |
| Dates.FixedTripleOrder | calendar_server.py:126 | padded year-month-day texts sort by year, then month, then day |
| Dates.IsoOrderIsChronological | calendar_server.py:126 | sorting `deadline_date` as text sorts the deadlines by date |
| ModuleGroups.KeysPrefixFree | calendar_server.py:66-70 | no group key is a prefix of another |
| ModuleGroups.AtMostOneKey | calendar_server.py:82-85 | a module code starts with at most one key, so the first match does not depend on key order |
| ModuleGroups.MatchFromSound | calendar_server.py:82-85 | a key found by the search is a prefix of the code |
| ModuleGroups.MatchFromComplete | calendar_server.py:82-85 | a key that is a prefix of the code is found |
| ModuleGroups.ClassifySpec | calendar_server.py:81-85 | the group is `k` exactly when `k` is a key and the upper-cased, stripped code starts with it |
| ModuleGroups.Classify | calendar_server.py:80-88 | the group of a module code, specified by ModuleGroups.ClassifySpec |
| ModuleGroups.FindModuleGroup | calendar_server.py:80-88 | the search loop with `break` returns the classified group, or none |
| Store.WithoutKey | calendar_server.py:99-100 | the replaced row is gone and every row with another key stays |
| Store.WithoutKeyUnique | calendar_server.py:44 | deleting a key keeps the keys unique |
| Store.UpsertedUnique | calendar_server.py:44 | `INSERT OR REPLACE` keeps UNIQUE(module_code, assignment_code, academic_year) |
| Store.ParseLineRejects | calendar_server.py:74-97 | a line is skipped exactly when it is short, of no group, has a bad deadline, or has a non-empty bad recommended date |
| Store.ParseLine | calendar_server.py:74-110 | the row one TSV line stores, or none; specified by Store.ParseLineRejects, Store.ParseLineFields and Store.ParseLineShape |
| Store.ParseLineFields | calendar_server.py:99-110 | the stored row has the stripped codes, the title `module code`, the group, ISO dates from the line, and no recommended date when that field is blank |
| Store.ParseLineShape | calendar_server.py:92-110 | a stored row's ISO dates parse back to the dates of the line |
| Store.ImportSkipsRejected | calendar_server.py:75-97 | a skipped line leaves the imported table as it was |
| Store.ImportRows | calendar_server.py:63-110 | the table after the import; specified by Store.ImportHoldsLast, Store.ImportKeysUnique and Store.ImportShape |
| Store.AccumulateUnique | calendar_server.py:44 | every import prefix keeps the keys unique |
| Store.ImportKeysUnique | calendar_server.py:44 | the imported table keeps the keys unique |
| Store.LastWithKeySpec | calendar_server.py:99-100 | the last stored row with a key comes from a line of that key, and there is none when no line has it |
| Store.AccumulateHoldsLast | calendar_server.py:99-100 | a row with key k is in the table exactly when it is the last row stored with key k |
| Store.ImportHoldsLastOnly | calendar_server.py:63-110 | each imported row comes from the last line storing its key |
| Store.ImportHoldsLastIf | calendar_server.py:63-110 | the row of the last line storing a key is in the table |
| Store.ImportHoldsLast | calendar_server.py:63-110 | the table holds for each key exactly the row of the last line storing it, after the old rows are deleted |
| Store.ImportRowsDerived | calendar_server.py:74-110 | every imported row comes from some line of the file |
| Store.ImportShape | calendar_server.py:99-110 | every imported row is active, in a module group, with ISO dates |
| Store.DeadlineTable.constructor | calendar_server.py:44 | a table opens with unique keys |
| Store.DeadlineTable.InsertOrReplace | calendar_server.py:99-110 | the new rows are the old ones without the key, followed by the new row |
| Store.DeadlineTable.ImportFromTsv | calendar_server.py:56-114 | after the import the table is exactly `ImportRows(file)` |
| Store.DeadlineTable.ImportLine | calendar_server.py:74-110 | one loop pass extends the import by one line |
| Store.ParseTsvLine | calendar_server.py:75-110 | the loop body computes the row of a line, or none |
| Store.FilterRows | calendar_server.py:121-134 | it keeps each active row whose group is the upper-cased asked group, or every active row when the group is absent or empty, as many times as the row occurs |
| Store.KeyLeTotal | calendar_server.py:126 | any two sort keys compare one way or the other |
| Store.KeyLeTransitive | calendar_server.py:126 | the sort-key order is transitive |
| Store.LeadsSorted | calendar_server.py:126 | a row below every row of a sorted list can go in front |
| Store.BelowHead | calendar_server.py:126 | a row below the head of a sorted list is below all of it |
| Store.HeadBelowInserted | calendar_server.py:126 | the head of a sorted list stays below the rest after an insertion |
| Store.InsertSorted | calendar_server.py:126 | inserting into a sorted list gives a sorted permutation of the list plus the row |
| Store.SortRows | calendar_server.py:126-133 | `ORDER BY` returns a sorted permutation of the rows |
| Store.Select | calendar_server.py:116-138 | the result is sorted by deadline and module, or by group first when no group is asked, and is a permutation of the filtered rows |
| Store.InsertGroup | calendar_server.py:146-149 | adding a group keeps the list strictly ascending and adds just that group |
| Store.ModuleGroupList | calendar_server.py:140-154 | the groups are strictly ascending and are exactly those of active rows |
| CalendarServer.KeysAreKeyText | calendar_server.py:66-70 | every key is upper-case letters and digits and is not `ALL` |
| CalendarServer.CalendarRequest | calendar_server.py:797-803 | the file name, group and calendar name of a feed path; specified by CalendarServer.FeedPathRoundTrip and CalendarServer.EmptyFeedRequest |
| CalendarServer.LastSegmentAfterSlash | calendar_server.py:797 | the last segment of `pre/name` is `name` when `name` has no `/` |
| CalendarServer.FeedPathSegment | calendar_server.py:797 | the file name of a group's feed path is the lower-cased group plus `.ics` |
| CalendarServer.UpperLower | calendar_server.py:802 | upper-casing the lower-cased key gives the key, and the key has no `.` |
| CalendarServer.LowerNotAll | calendar_server.py:798 | a group's feed is never taken for `all.ics` |
| CalendarServer.FeedPathRoundTrip | calendar_server.py:797-803 | the feed path of a group asks for that group, under the name `<group> Marking Deadlines April 2026` |
| CalendarServer.EventsErrPersists | calendar_server.py:871-873 | once a deadline fails to parse, later rows do not change the failure |
| CalendarServer.Events | calendar_server.py:871-888 | the events of the selected rows, or the first deadline that does not parse; specified by CalendarServer.EventsOk, CalendarServer.EventsErr and CalendarServer.EventsSpec |
| CalendarServer.CalendarFor | calendar_server.py:858-890 | the calendar of a feed, named as asked; specified by CalendarServer.ImportedFeedEvents and CalendarServer.EmptyGroupFeedIsAll |
| CalendarServer.EventsAbortAt | calendar_server.py:871-873 | a deadline that fails to parse after rows that all did is the failure of the whole feed |
| CalendarServer.EventsOk | calendar_server.py:871-888 | when every deadline parses, event k is row k's event: name, begin = end = the deadline, description, categories, uid |
| CalendarServer.EventsErr | calendar_server.py:873 | any deadline that fails to parse aborts the feed |
| CalendarServer.EventsSpec | calendar_server.py:871-888 | the feed is built exactly when every selected deadline is text that `strptime(..., '%Y-%m-%d')` accepts |
| CalendarServer.EventsSnoc | calendar_server.py:871-888 | the events of one more row are the old events plus its event, or the failure |
| CalendarServer.GenerateCalendar | calendar_server.py:858-890 | the calendar is named as asked and holds the selected rows' events, or the request aborts |
| CalendarServer.EventsOf | calendar_server.py:871-888 | the loop over the selected rows computes their events, or the first bad deadline |
| CalendarServer.SelectedFromTable | calendar_server.py:116-138 | every selected row is a row of the table that matches the group |
| CalendarServer.ImportedFeedEvents | calendar_server.py:858-890 | a feed of an imported table never aborts; each event has one day, the right category, and the deadline of a file line |
| CalendarServer.DashJoinInjective | calendar_server.py:886 | a dash-joined triple with a dash-free first part and a fixed-width third part is decoded uniquely |
| CalendarServer.UidInjective | calendar_server.py:886 | equal uids mean equal module code, assignment code and deadline, when module codes hold no dash |
| CalendarServer.UidCollision | calendar_server.py:886 | two rows with different keys can share a uid when a module code holds a dash |
| CalendarServer.UniqueOnce | calendar_server.py:44 | a table with unique keys holds each row at most once |
| CalendarServer.SelectUnique | calendar_server.py:116-138 | the selected rows keep unique keys |
| CalendarServer.ImportedFeedUidsDistinct | calendar_server.py:886 | in a feed of an imported table, two events share a uid only if they are the same event, when module codes hold no dash |
| CalendarServer.FilterUntruthy | calendar_server.py:121 | an empty group filters like no group |
| CalendarServer.SelectUntruthy | calendar_server.py:121 | an empty group selects like no group |
| CalendarServer.EmptyFeedRequest | calendar_server.py:797-803 | `/calendar/.ics` asks for the empty group |
| CalendarServer.EmptyGroupFeedIsAll | calendar_server.py:797-803 | `/calendar/.ics` serves the events of every group, with category `Assignment` |
| CalendarServer.EventsUntruthy | calendar_server.py:883 | events for an empty group are those for no group |
| CalendarServer.Entries | calendar_server.py:839-847 | one JSON entry per selected row |
| CalendarServer.ServeDeadlines | calendar_server.py:830-847 | the JSON entries of the selected rows with `ALL` read as no group; specified by CalendarServer.DeadlinesAllIsEveryGroup and CalendarServer.DeadlinesLowerAllIsEmpty |
| CalendarServer.IndexLinks | calendar_server.py:725-780 | one link per group, then the combined feed, with the host bound for every group list |
| CalendarServer.ServeIndex | calendar_server.py:740-767 | as written, the landing page exists exactly when there is a group, because the host names the combined link reads are bound only inside the loop over the groups |
| CalendarServer.ServeCalendar | calendar_server.py:794-817 | a feed path gives a feed or an aborted request, never another response |
| CalendarServer.DoGet | calendar_server.py:164-183 | the handler answers as the routing function says, including no answer for `/` on a table with no active group |
| CalendarServer.Respond | calendar_server.py:164-183 | the response to a path and group value; specified by CalendarServer.RouteStatus |
| CalendarServer.RouteStatus | calendar_server.py:164-183 | 404 exactly for unknown paths, 204 exactly for `/favicon.ico`; nothing is sent only for an aborted feed or for `/` on a table with no active group, and `/` sends nothing exactly then |
| CalendarServer.EmptyTableIndexFails | calendar_server.py:740-767 | on an empty table `GET /` sends nothing as written, while the corrected page answers 200 |
| CalendarServer.RespondIntended | calendar_server.py:164-183 | `do_GET` with the landing page's host bound before its loop |
| CalendarServer.RespondIntendedIndex | calendar_server.py:740-767 | corrected, `/` answers 200 with a link per group and then the combined link, which asks for every group's feed; where the code as written answers `/`, the two agree |
| CalendarServer.RouteStatusIntended | calendar_server.py:164-183 | corrected, only an aborted feed leaves a request unanswered |
| CalendarServer.DeadlinesAllIsEveryGroup | calendar_server.py:834-835 | `group=ALL` lists what no group and an empty group list |
| CalendarServer.FilterNone | calendar_server.py:125 | a filter that no row matches is empty |
| CalendarServer.DeadlinesLowerAllIsEmpty | calendar_server.py:832-835 | `group=all` is matched as the group `ALL`, which no imported row has |
| CalendarServer.IndexLinksServeTheirGroup | calendar_server.py:725-750 | each group link of the landing page asks for that group's feed |
| CalendarServer.LinkServesGroup | calendar_server.py:749-750 | the link of a group key asks for that group's feed |
| StaticIcs.ParseDateSpec | deadlines_to_ics.py:24-29 | a date text parses exactly when its stripped text spells a valid date |
| StaticIcs.ParseDateIgnoresPadding | deadlines_to_ics.py:27 | whitespace around the date does not change the result |
| StaticIcs.ParseDate | deadlines_to_ics.py:24-29 | `parse_date`, specified by StaticIcs.ParseDateSpec |
| StaticIcs.RowEvent | deadlines_to_ics.py:75-89 | the event and key one line adds, or none; specified by StaticIcs.RowEventSpec |
| StaticIcs.NonEmptySnoc | deadlines_to_ics.py:92-93 | one more candidate is written exactly when its calendar has events |
| StaticIcs.CollectedSnoc | deadlines_to_ics.py:88 | one more line adds its event to its own group only |
| StaticIcs.GroupEventsSnoc | deadlines_to_ics.py:74-89 | a group's events after one more line are the old ones plus that line's event when it belongs to the group |
| StaticIcs.AddingKeepsCalendars | deadlines_to_ics.py:88 | adding an event to its key's calendar keeps every calendar equal to its key's events so far |
| StaticIcs.GenerateStaticFiles | deadlines_to_ics.py:32-96 | the files written are exactly the static files of the input |
| StaticIcs.NewCalendars | deadlines_to_ics.py:63-70 | one empty, named calendar per key |
| StaticIcs.AddRow | deadlines_to_ics.py:74-89 | one pass of the row loop adds that line's event to its calendar |
| StaticIcs.RowEventsSnoc | deadlines_to_ics.py:74-89 | the events of one more line are the old ones plus that line's event |
| StaticIcs.ReadRow | deadlines_to_ics.py:75-89 | the row loop body, with its inner key loop and `break`, finds the line's event and a key of the map |
| StaticIcs.WrittenFiles | deadlines_to_ics.py:92-96 | the written files are the non-empty calendars, in key order |
| StaticIcs.CandidatesHoldCalendars | deadlines_to_ics.py:63-92 | after the row loop, each key's file name and calendar are that key's candidate |
| StaticIcs.RowEventSpec | deadlines_to_ics.py:75-89 | a line yields an event exactly when it has four fields, a parsable deadline and a group; the event is named `<module> <code> deadline` and lasts that day |
| StaticIcs.RejectedLinesAddNothing | deadlines_to_ics.py:75-80 | short lines and lines with bad deadlines add no event |
| StaticIcs.RecommendIgnored | deadlines_to_ics.py:77 | the recommended-date column never changes the calendars |
| StaticIcs.CollectedFrom | deadlines_to_ics.py:88 | every collected event comes from a line of that key |
| StaticIcs.GroupEventsShape | deadlines_to_ics.py:82-88 | every event of a group lasts one day, the deadline of a line of that group |
| StaticIcs.KeysDistinct | deadlines_to_ics.py:35-46 | the ten keys are distinct |
| StaticIcs.EventTotalSnoc | deadlines_to_ics.py:82-89 | one more line adds at most one event, in all calendars together |
| StaticIcs.EventTotalEmpty | deadlines_to_ics.py:63-70 | the new calendars hold no events |
| StaticIcs.EventsPartition | deadlines_to_ics.py:82-89 | the calendars together hold as many events as there are accepted lines |
| StaticIcs.EventsPartitionLines | deadlines_to_ics.py:72-89 | each accepted line lands in exactly one calendar |
| StaticIcs.NonEmptySpec | deadlines_to_ics.py:93 | a file is written exactly when it is a candidate with events |
| StaticIcs.KeyLacksSpace | deadlines_to_ics.py:35-46 | no key holds a space |
| StaticIcs.OutputFileNameInjective | deadlines_to_ics.py:35-46 | different keys give different file names for one month and year |
| StaticIcs.StaticFilesSpec | deadlines_to_ics.py:92-96 | a key's file is written exactly when its group has events, and it holds that key's calendar |
| StaticIcs.StaticFiles | deadlines_to_ics.py:92-96 | the files `generate_static_files` writes; specified by StaticIcs.StaticFilesSpec and StaticIcs.NonEmptySpec |
| StaticIcs.ResolveArgsSpec | deadlines_to_ics.py:164-175 | with the defaults applied to absent arguments only, the arguments pass exactly when the year is in 1900..3000 and the month is a month name; otherwise the error names which check failed |
| StaticIcs.ResolveArgsAsWritten | deadlines_to_ics.py:164-175 | the year and month `main` resolves and checks as written; specified by StaticIcs.ResolveArgsAsWrittenSpec |
| StaticIcs.ResolveArgsAsWrittenSpec | deadlines_to_ics.py:164-175 | as written, a year that is absent or 0 becomes 2026 and a month that is absent or empty becomes September; the arguments pass exactly when the year is in 1900..3000 and the month is a month name, and otherwise the error names which check failed |
| StaticIcs.ResolveArgs | deadlines_to_ics.py:164-175 | the corrected resolution, with defaults only for absent arguments; specified by StaticIcs.ResolveArgsSpec |
| StaticIcs.FalsyArgumentsSlipThrough | deadlines_to_ics.py:164-165 | as written, `--year 0` and `--month ""` silently become 2026 and September |
| StaticIcs.ResolveArgsAgrees | deadlines_to_ics.py:164-165 | apart from year 0 and the empty month, the checks agree with the code as written |
| StaticIcs.RunStatic | deadlines_to_ics.py:143-177 | the static branch of `main` as written; specified by StaticIcs.RunStaticValidates |
| StaticIcs.RunStaticValidates | deadlines_to_ics.py:143-177 | as written, files are generated exactly when an input path is given and exists and the resolved arguments pass; they are the static files for the resolved year and month |
| StaticIcs.RunStaticYearZero | deadlines_to_ics.py:164-177 | as written, `--year 0` on an existing input writes the September 2026 files, while the intended `main` rejects the year |
| StaticIcs.RunStaticIntended | deadlines_to_ics.py:143-177 | the static branch of `main` with defaults only for absent arguments; specified by StaticIcs.RunStaticIntendedValidates |
| StaticIcs.RunStaticIntendedValidates | deadlines_to_ics.py:143-177 | with the intended defaults, files are generated exactly when the path is given and exists and the arguments pass as given; they are the static files of the given or default year and month |

## Left out

- HTTP plumbing is not modelled: the socket server, the headers, `urlparse` and `parse_qs`. A request is its path plus the first `group` value.
- The HTML of the landing page is reduced to its feed links. Its failure on a table with no active group is modelled (CalendarServer.ServeIndex).
- The ICS serialisation of the `ics` package is not modelled. An event's `begin` and `end` are dates, not timezone-aware datetimes.
- CalendarServer.Events: `calendar.events` in the `ics` package is a set, and an `ics` event's equality and hash are its UID. The model keeps a list in query order, so events with equal UIDs are not merged. CalendarServer.UidCollision shows that two selected rows can share a UID.
- `StaticIcs.Collected` keeps a list per calendar in the same way, in place of the package's set.
- File I/O and the CSV reader are left out. A file is given as its rows of fields, already split on tabs.
- Printing, `sys.exit`, `os.environ`, the clock and the file-modification time on the landing page are left out.
- Store.DeadlineTable: the surrogate `id`, `created_at`, `updated_at` and the index `idx_module_group_deadline` are not modelled. They do not change which rows are stored or selected.
- `Store.Select` returns whole rows rather than the five selected columns, and `CalendarServer.Entries` projects them. Ties in `ORDER BY` are left unordered, so only "sorted and a permutation" is claimed.
- Text.Upper: only letters that upper-case to an ASCII letter are mapped. Other code points are kept, including ones Python would change or expand (such as `ß` to `SS`). The model does not capture what such names become in a feed path, nor how they are classified: Python upper-cases `Sẚ1` to `SAʾ1` and files the line under SA, while ModuleGroups.Classify gives none for it.
- Text.Lower: only ASCII letters are mapped.
- Dates.ParseDmy: `strptime`'s `%d`, `%m` and `%Y` also accept non-ASCII decimal digits. The model accepts ASCII digits only.
- Dates.ParseIso: the same holds for `%Y-%m-%d`: non-ASCII decimal digits are not accepted by the model. The space-and-digit day is modelled.
- CalendarServer.ServeCalendar: an aborted request (a stored deadline that is not ISO text) is a response value. The exception handling of `http.server` is not modelled.
- `view_database.py` is not part of this model.
- `import_to_database` and `start_server` are not part of this model, and neither are the `--to-database` and `--start-server` branches of `main`.
- There is no rate limiter and no path guard in the code. The model adds none.

## Findings

| source | as written | input that shows it | evidently intended | confidence | as-written member | corrected member |
|---|---|---|---|---|---|---|
| deadlines_to_ics.py:164-165 | `year = args.year if args.year else 2026` and the same test for `month` replace any falsy value with the default, before the range and name checks | `--year 0` writes files for 2026, and `--month ""` writes files for September, where the checks at lines 168-175 would reject both | apply the default only to an absent argument, so that year 0 fails the year check and the empty month fails the month check | not executed | StaticIcs.RunStatic (shown by StaticIcs.RunStaticYearZero and StaticIcs.FalsyArgumentsSlipThrough) | StaticIcs.RunStaticIntended (proved in StaticIcs.RunStaticIntendedValidates and StaticIcs.ResolveArgsSpec) |
| calendar_server.py:740-767 | `base_host` and `https_base_url` are assigned only inside `for group in groups:`, and the combined link after the loop reads them | `GET /` when no row is active (a fresh database, or an import that stored nothing): `get_module_groups()` is empty and `serve_index` raises `UnboundLocalError`, so no page is sent | bind the host before the loop, so that the landing page always offers the combined feed | not executed | CalendarServer.Respond (shown by CalendarServer.EmptyTableIndexFails and CalendarServer.RouteStatus) | CalendarServer.RespondIntended (proved in CalendarServer.RespondIntendedIndex and CalendarServer.RouteStatusIntended) |
