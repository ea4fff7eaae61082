/**
 * The static generator of `deadlines_to_ics.py`: each TSV line with a
 * DD/MM/YYYY deadline becomes a one-day event in the calendar of the first
 * group its module matches, one `.ics` file is written per group that has an
 * event, and `main` checks the year and month before generating.
 *
 * The files are returned as values (name and calendar) instead of being
 * written; the TSV file is given as its lines of tab-separated fields.
 */
module StaticIcs {
  import opened Base
  import opened Text
  import opened Dates
  import opened ModuleGroups

  // ---------------------------------------------------------------------------
  // parse_date
  // ---------------------------------------------------------------------------

  /** `parse_date`: `strptime(s.strip(), "%d/%m/%Y")`, or `None` where that raises. */
  function ParseDate(s: string): Option<Date>
  {
    ParseDmy(Strip(s))
  }

  /**
   * `parse_date` returns a date exactly when the stripped text spells a real
   * date as day/month/four-digit year, day and month with or without a
   * leading zero.
   */
  lemma ParseDateSpec(s: string, d: Date)
    ensures ParseDate(s) == Some(d) <==>
            ValidDate(d) && exists padDay, padMonth :: Strip(s) == DmySpelling(d, padDay, padMonth)
  {
    ParseDmySpec(Strip(s), d);
  }

  /** Whitespace around the date does not change what `parse_date` returns. */
  lemma ParseDateIgnoresPadding(pre: string, t: string, post: string)
    requires AllSpace(pre) && AllSpace(post) && IsStripped(t)
    ensures ParseDate(pre + t + post) == ParseDate(t)
  {
    StripPadding(pre, t, post);
    StripPadding([], t, []);
    assert [] + t + [] == t;
  }

  // ---------------------------------------------------------------------------
  // Calendars and files
  // ---------------------------------------------------------------------------

  /** The fields of an `ics.Event` the generator sets. */
  datatype StaticEvent = StaticEvent(name: string, begin: Date, end: Date)

  /** A group's `ics.Calendar`: its three extra lines and its events. */
  datatype GroupCalendar = GroupCalendar(
    calName: string,
    calDesc: string,
    displayName: string,
    events: seq<StaticEvent>)

  /** A file the generator writes: its name and the calendar serialised into it. */
  datatype IcsFile = IcsFile(fileName: string, calendar: GroupCalendar)

  /** The `module_names` entry of a group. */
  function DisplayName(key: string): string
  {
    key + " Assignment Deadlines"
  }

  /** The `module_files` entry of a group: its key, a space, then the rest of the name. */
  function OutputFileName(key: string, month: string, year: int): string
  {
    key + " " + FileNameTail(month, year)
  }

  /** What follows the key in every file name: the title, the month, the year, the extension. */
  function FileNameTail(month: string, year: int): string
  {
    "Assignment Deadlines " + month + " " + IntToString(year) + ".ics"
  }

  /** A group's calendar before any line is read. */
  function EmptyCalendar(key: string, month: string, year: int): GroupCalendar
  {
    GroupCalendar(DisplayName(key), "ActEd " + DisplayName(key) + " - " + month + " " + IntToString(year),
                  DisplayName(key), [])
  }

  /**
   * The group and event of one TSV line, or `None` when the line is short,
   * its deadline does not parse, or its module matches no group. The name
   * uses the module and code columns as they are, unstripped.
   */
  function RowEvent(line: seq<string>): Option<(string, StaticEvent)>
  {
    if |line| < 4 then None
    else
      match ParseDate(line[3])
      case None => None
      case Some(start) =>
        match Classify(line[0])
        case None => None
        case Some(key) => Some((key, StaticEvent(line[0] + " " + line[1] + " deadline", start, start)))
  }

  /** What `RowEvent` gives for each line of `file`. */
  function RowEvents(file: seq<seq<string>>): (r: seq<Option<(string, StaticEvent)>>)
    ensures |r| == |file| && forall i :: 0 <= i < |file| ==> r[i] == RowEvent(file[i])
  {
    seq(|file|, i requires 0 <= i < |file| => RowEvent(file[i]))
  }

  /** The events that `events` add to the calendar of `key`, in order. */
  function Collected(events: seq<Option<(string, StaticEvent)>>, key: string): seq<StaticEvent>
  {
    if events == [] then []
    else
      var r := events[|events| - 1];
      Collected(events[..|events| - 1], key) + (if r.Some? && r.value.0 == key then [r.value.1] else [])
  }

  /** The events the lines of `file` add to the calendar of `key`, in file order. */
  function GroupEvents(file: seq<seq<string>>, key: string): seq<StaticEvent>
  {
    Collected(RowEvents(file), key)
  }

  /** The calendar of `key` after all of `file` is read. */
  function CalendarOf(file: seq<seq<string>>, key: string, month: string, year: int): GroupCalendar
  {
    EmptyCalendar(key, month, year).(events := GroupEvents(file, key))
  }

  /** The file of group `key`: its name and its calendar. */
  function FileOf(file: seq<seq<string>>, key: string, month: string, year: int): IcsFile
  {
    IcsFile(OutputFileName(key, month, year), CalendarOf(file, key, month, year))
  }

  /** The files among `candidates` whose calendar has an event, in order. */
  function NonEmpty(candidates: seq<IcsFile>): seq<IcsFile>
  {
    if candidates == [] then []
    else
      var f := candidates[|candidates| - 1];
      NonEmpty(candidates[..|candidates| - 1]) + (if f.calendar.events != [] then [f] else [])
  }

  lemma NonEmptySnoc(candidates: seq<IcsFile>, f: IcsFile)
    ensures NonEmpty(candidates + [f]) == NonEmpty(candidates) + (if f.calendar.events != [] then [f] else [])
  {
    assert (candidates + [f])[..|candidates|] == candidates;
  }

  /** The file of every group, in the order of `Keys`. */
  function Candidates(file: seq<seq<string>>, month: string, year: int): (r: seq<IcsFile>)
    ensures |r| == |Keys| && forall i :: 0 <= i < |Keys| ==> r[i] == FileOf(file, Keys[i], month, year)
  {
    seq(|Keys|, i requires 0 <= i < |Keys| => FileOf(file, Keys[i], month, year))
  }

  /** The files `generate_static_files` writes, in the order of `Keys`. */
  function StaticFiles(file: seq<seq<string>>, month: string, year: int): seq<IcsFile>
  {
    NonEmpty(Candidates(file, month, year))
  }

  lemma CollectedSnoc(events: seq<Option<(string, StaticEvent)>>, r: Option<(string, StaticEvent)>, key: string)
    ensures Collected(events + [r], key) == Collected(events, key) + (if r.Some? && r.value.0 == key then [r.value.1] else [])
  {
    assert (events + [r])[..|events|] == events;
  }

  lemma GroupEventsSnoc(file: seq<seq<string>>, line: seq<string>, key: string)
    ensures GroupEvents(file + [line], key) ==
            GroupEvents(file, key)
            + (if RowEvent(line).Some? && RowEvent(line).value.0 == key then [RowEvent(line).value.1] else [])
  {
    assert RowEvents(file + [line]) == RowEvents(file) + [RowEvent(line)];
    CollectedSnoc(RowEvents(file), RowEvent(line), key);
  }

  // ---------------------------------------------------------------------------
  // generate_static_files
  // ---------------------------------------------------------------------------

  /** The calendars map holds one calendar per group, holding the events of `events`. */
  ghost predicate CalendarsAfter(calendars: map<string, GroupCalendar>, events: seq<Option<(string, StaticEvent)>>,
                                 month: string, year: int)
  {
    (forall k :: k in calendars <==> k in Keys)
    && forall k :: k in Keys ==> calendars[k] == EmptyCalendar(k, month, year).(events := Collected(events, k))
  }

  /** Adding one line's event to its group keeps every calendar equal to the events read so far. */
  lemma AddingKeepsCalendars(calendars: map<string, GroupCalendar>, events: seq<Option<(string, StaticEvent)>>,
                             r: Option<(string, StaticEvent)>, month: string, year: int)
    requires CalendarsAfter(calendars, events, month, year)
    requires r.Some? ==> r.value.0 in Keys
    ensures r.None? ==> CalendarsAfter(calendars, events + [r], month, year)
    ensures r.Some? ==>
              var key := r.value.0;
              CalendarsAfter(calendars[key := calendars[key].(events := calendars[key].events + [r.value.1])],
                             events + [r], month, year)
  {
    forall k | k in Keys
      ensures Collected(events + [r], k) == Collected(events, k) + (if r.Some? && r.value.0 == k then [r.value.1] else [])
    {
      CollectedSnoc(events, r, k);
    }
  }

  /** `generate_static_files`, returning the files it writes. */
  method GenerateStaticFiles(file: seq<seq<string>>, year: int, month: string) returns (files: seq<IcsFile>)
    ensures files == StaticFiles(file, month, year)
  {
    var calendars := NewCalendars(month, year);
    assert file[..0] == [];
    var j := 0;
    while j < |file|
      invariant 0 <= j <= |file|
      invariant CalendarsAfter(calendars, RowEvents(file[..j]), month, year)
    {
      calendars := AddRow(calendars, file, j, month, year);
      j := j + 1;
    }
    assert file[..|file|] == file;
    CandidatesHoldCalendars(calendars, file, month, year);
    files := WrittenFiles(calendars, month, year, Candidates(file, month, year));
  }

  /** The loop that creates an empty, named calendar for every group. */
  method NewCalendars(month: string, year: int) returns (calendars: map<string, GroupCalendar>)
    ensures CalendarsAfter(calendars, [], month, year)
  {
    calendars := map[];
    var i := 0;
    while i < |Keys|
      invariant 0 <= i <= |Keys|
      invariant forall k :: k in calendars <==> k in Keys[..i]
      invariant forall k :: k in calendars ==> calendars[k] == EmptyCalendar(k, month, year)
    {
      assert Keys[..i + 1] == Keys[..i] + [Keys[i]];
      calendars := calendars[Keys[i] := EmptyCalendar(Keys[i], month, year)];
      i := i + 1;
    }
    assert Keys[..|Keys|] == Keys;
  }

  /** The body of the loop over lines: the event of line `j`, if any, added to its group's calendar. */
  method AddRow(calendars: map<string, GroupCalendar>, file: seq<seq<string>>, j: int, month: string, year: int)
    returns (updated: map<string, GroupCalendar>)
    requires 0 <= j < |file| && CalendarsAfter(calendars, RowEvents(file[..j]), month, year)
    ensures CalendarsAfter(updated, RowEvents(file[..j + 1]), month, year)
  {
    updated := calendars;
    var r := ReadRow(file[j]);
    AddingKeepsCalendars(calendars, RowEvents(file[..j]), r, month, year);
    RowEventsSnoc(file, j);
    if r.Some? {
      var key := r.value.0;
      updated := calendars[key := calendars[key].(events := calendars[key].events + [r.value.1])];
    }
  }

  lemma RowEventsSnoc(file: seq<seq<string>>, j: int)
    requires 0 <= j < |file|
    ensures RowEvents(file[..j + 1]) == RowEvents(file[..j]) + [RowEvent(file[j])]
  {
  }

  /**
   * The parsing part of the loop over lines: the group of the line, found by the
   * loop over keys that stops at the first key the module starts with, and
   * the event to add to that group's calendar.
   */
  method ReadRow(line: seq<string>) returns (r: Option<(string, StaticEvent)>)
    ensures r == RowEvent(line)
    ensures r.Some? ==> r.value.0 in Keys
  {
    if |line| < 4 {
      return None;
    }
    var moduleText, code, deadlineText := line[0], line[1], line[3];
    var start := ParseDate(deadlineText);
    if start.None? {
      return None;
    }
    var u := Upper(Strip(moduleText));
    var m := 0;
    while m < |Keys|
      invariant 0 <= m <= |Keys|
      invariant MatchFrom(u, m) == MatchFrom(u, 0)
    {
      if StartsWith(u, Keys[m]) {
        return Some((Keys[m], StaticEvent(moduleText + " " + code + " deadline", start.value, start.value)));
      }
      m := m + 1;
    }
    return None;
  }

  /**
   * The loop that writes the file of every group whose calendar has an event;
   * `candidates` names, for each group, the file its calendar would go to.
   */
  method WrittenFiles(calendars: map<string, GroupCalendar>, month: string, year: int, ghost candidates: seq<IcsFile>)
    returns (files: seq<IcsFile>)
    requires |candidates| == |Keys|
    requires forall i :: 0 <= i < |Keys| ==>
               Keys[i] in calendars && candidates[i] == IcsFile(OutputFileName(Keys[i], month, year), calendars[Keys[i]])
    ensures files == NonEmpty(candidates)
  {
    files := [];
    var n := 0;
    while n < |Keys|
      invariant 0 <= n <= |Keys|
      invariant files == NonEmpty(candidates[..n])
    {
      var key := Keys[n];
      var calendar := calendars[key];
      assert candidates[..n + 1] == candidates[..n] + [candidates[n]];
      NonEmptySnoc(candidates[..n], candidates[n]);
      if calendar.events != [] {
        files := files + [IcsFile(OutputFileName(key, month, year), calendar)];
      }
      n := n + 1;
    }
    assert candidates[..|Keys|] == candidates;
  }

  /** After all lines are read, each group's calendar is the one of its file. */
  lemma CandidatesHoldCalendars(calendars: map<string, GroupCalendar>, file: seq<seq<string>>, month: string, year: int)
    requires CalendarsAfter(calendars, RowEvents(file), month, year)
    ensures forall i :: 0 <= i < |Keys| ==>
              Keys[i] in calendars
              && Candidates(file, month, year)[i] == IcsFile(OutputFileName(Keys[i], month, year), calendars[Keys[i]])
  {
  }

  // ---------------------------------------------------------------------------
  // What the generator promises
  // ---------------------------------------------------------------------------

  /**
   * An event goes to group `key` exactly when the line has four fields, its
   * deadline parses, and `key` is a group key the stripped, upper-cased
   * module starts with; the event lasts the single day of that deadline.
   */
  lemma RowEventSpec(line: seq<string>, key: string, e: StaticEvent)
    ensures RowEvent(line) == Some((key, e)) <==>
            |line| >= 4 && ParseDate(line[3]).Some?
            && key in Keys && StartsWith(Upper(Strip(line[0])), key)
            && e == StaticEvent(line[0] + " " + line[1] + " deadline", ParseDate(line[3]).value, ParseDate(line[3]).value)
  {
    if |line| >= 4 {
      ClassifySpec(line[0], key);
    }
  }

  /** Short lines and lines whose deadline does not parse add no event to any calendar. */
  lemma RejectedLinesAddNothing(file: seq<seq<string>>, line: seq<string>, key: string)
    requires |line| < 4 || ParseDate(line[3]).None?
    ensures GroupEvents(file + [line], key) == GroupEvents(file, key)
  {
    GroupEventsSnoc(file, line, key);
  }

  /** Two lines that differ at most in their recommend column (the third). */
  predicate SameButRecommend(a: seq<string>, b: seq<string>)
  {
    |a| == |b| && forall i :: 0 <= i < |a| && i != 2 ==> a[i] == b[i]
  }

  /** The recommend-date column never affects any calendar. */
  lemma RecommendIgnored(file: seq<seq<string>>, file': seq<seq<string>>, key: string)
    requires |file| == |file'|
    requires forall j :: 0 <= j < |file| ==> SameButRecommend(file[j], file'[j])
    ensures GroupEvents(file, key) == GroupEvents(file', key)
  {
    forall j | 0 <= j < |file| ensures RowEvent(file[j]) == RowEvent(file'[j]) {
      var a, b := file[j], file'[j];
      if |a| >= 4 {
        assert a[0] == b[0] && a[1] == b[1] && a[3] == b[3];
      }
    }
    assert RowEvents(file) == RowEvents(file');
  }

  lemma {:induction false} CollectedFrom(events: seq<Option<(string, StaticEvent)>>, key: string, k: int)
    requires 0 <= k < |Collected(events, key)|
    ensures exists j :: 0 <= j < |events| && events[j] == Some((key, Collected(events, key)[k]))
  {
    var n := |events| - 1;
    var init := events[..n];
    if k < |Collected(init, key)| {
      CollectedFrom(init, key, k);
      var j :| 0 <= j < |init| && init[j] == Some((key, Collected(init, key)[k]));
      assert events[j] == init[j];
    } else {
      assert events[n] == Some((key, Collected(events, key)[k]));
    }
  }

  /**
   * Every event of a group's calendar lasts one day, the parsed deadline of a
   * line of the file whose module starts with that group's key.
   */
  lemma GroupEventsShape(file: seq<seq<string>>, key: string, k: int)
    requires 0 <= k < |GroupEvents(file, key)|
    ensures var e := GroupEvents(file, key)[k];
            e.begin == e.end
            && exists j :: 0 <= j < |file| && |file[j]| >= 4 && ParseDate(file[j][3]) == Some(e.begin)
                           && Classify(file[j][0]) == Some(key)
  {
    CollectedFrom(RowEvents(file), key, k);
    var e := GroupEvents(file, key)[k];
    var j :| 0 <= j < |file| && RowEvents(file)[j] == Some((key, e));
    RowEventSpec(file[j], key, e);
  }

  /** The number of lines that yield an event. */
  function Accepted(events: seq<Option<(string, StaticEvent)>>): nat
  {
    if events == [] then 0
    else Accepted(events[..|events| - 1]) + (if events[|events| - 1].Some? then 1 else 0)
  }

  /** The number of events in the calendars of the groups `keys`. */
  function EventTotal(events: seq<Option<(string, StaticEvent)>>, keys: seq<string>): nat
  {
    if keys == [] then 0 else EventTotal(events, keys[..|keys| - 1]) + |Collected(events, keys[|keys| - 1])|
  }

  predicate Distinct(keys: seq<string>)
  {
    forall i, j :: 0 <= i < j < |keys| ==> keys[i] != keys[j]
  }

  lemma KeysDistinct()
    ensures Distinct(Keys)
  {
    KeysPrefixFree();
    forall i, j | 0 <= i < j < |Keys| ensures Keys[i] != Keys[j] {
      assert !StartsWith(Keys[j], Keys[i]);
    }
  }

  lemma {:induction false} EventTotalSnoc(events: seq<Option<(string, StaticEvent)>>, r: Option<(string, StaticEvent)>,
                                          keys: seq<string>)
    requires Distinct(keys)
    ensures EventTotal(events + [r], keys) == EventTotal(events, keys) + (if r.Some? && r.value.0 in keys then 1 else 0)
  {
    if keys != [] {
      var n := |keys| - 1;
      var init, last := keys[..n], keys[n];
      assert keys == init + [last];
      forall i | 0 <= i < n ensures init[i] != last {
        assert init[i] == keys[i];
      }
      EventTotalSnoc(events, r, init);
      CollectedSnoc(events, r, last);
    }
  }

  lemma {:induction false} EventTotalEmpty(keys: seq<string>)
    ensures EventTotal([], keys) == 0
  {
    if keys != [] {
      EventTotalEmpty(keys[..|keys| - 1]);
    }
  }

  /** When every event names a group key, the calendars together hold each event once. */
  lemma {:induction false} EventsPartition(events: seq<Option<(string, StaticEvent)>>)
    requires forall i :: 0 <= i < |events| && events[i].Some? ==> events[i].value.0 in Keys
    ensures EventTotal(events, Keys) == Accepted(events)
  {
    if events == [] {
      EventTotalEmpty(Keys);
    } else {
      var n := |events| - 1;
      EventsPartition(events[..n]);
      assert events == events[..n] + [events[n]];
      KeysDistinct();
      EventTotalSnoc(events[..n], events[n], Keys);
    }
  }

  /**
   * Every line that yields an event adds it to exactly one calendar: the
   * calendars together hold one event per such line.
   */
  lemma EventsPartitionLines(file: seq<seq<string>>)
    ensures EventTotal(RowEvents(file), Keys) == Accepted(RowEvents(file))
  {
    var events := RowEvents(file);
    forall i | 0 <= i < |events| && events[i].Some? ensures events[i].value.0 in Keys {
      RowEventSpec(file[i], events[i].value.0, events[i].value.1);
    }
    EventsPartition(events);
  }

  /** A file is kept exactly when it is a candidate whose calendar has an event. */
  lemma {:induction false} NonEmptySpec(candidates: seq<IcsFile>, f: IcsFile)
    ensures f in NonEmpty(candidates) <==> f in candidates && f.calendar.events != []
  {
    if candidates != [] {
      var n := |candidates| - 1;
      NonEmptySpec(candidates[..n], f);
      assert candidates == candidates[..n] + [candidates[n]];
    }
  }

  lemma KeyLacksSpace(key: string)
    requires key in Keys
    ensures Lacks(key, ' ')
  {
  }

  /** No two groups write the same file: the key ends at the first space of the name. */
  lemma OutputFileNameInjective(k1: string, k2: string, month: string, year: int)
    requires Lacks(k1, ' ') && Lacks(k2, ' ')
    requires OutputFileName(k1, month, year) == OutputFileName(k2, month, year)
    ensures k1 == k2
  {
    var tail := FileNameTail(month, year);
    IndexOfJoin(k1, ' ', tail);
    IndexOfJoin(k2, ' ', tail);
    assert k1 == OutputFileName(k1, month, year)[..|k1|];
    assert k2 == OutputFileName(k2, month, year)[..|k2|];
  }

  /**
   * The file named after a group is written exactly when the group's calendar
   * has an event, and it holds that calendar: the group's display name and
   * description and the events of its lines.
   */
  lemma StaticFilesSpec(file: seq<seq<string>>, month: string, year: int, key: string)
    requires key in Keys
    ensures (exists f :: f in StaticFiles(file, month, year) && f.fileName == OutputFileName(key, month, year))
            <==> GroupEvents(file, key) != []
    ensures forall f :: f in StaticFiles(file, month, year) && f.fileName == OutputFileName(key, month, year) ==>
              f.calendar == CalendarOf(file, key, month, year)
  {
    forall f | f in StaticFiles(file, month, year) && f.fileName == OutputFileName(key, month, year)
      ensures f.calendar == CalendarOf(file, key, month, year) && GroupEvents(file, key) != []
    {
      NonEmptySpec(Candidates(file, month, year), f);
      var i :| 0 <= i < |Keys| && Candidates(file, month, year)[i] == f;
      var k' := Keys[i];
      KeyLacksSpace(k');
      KeyLacksSpace(key);
      OutputFileNameInjective(k', key, month, year);
    }
    if GroupEvents(file, key) != [] {
      var i :| 0 <= i < |Keys| && Keys[i] == key;
      NonEmptySpec(Candidates(file, month, year), FileOf(file, key, month, year));
      assert Candidates(file, month, year)[i] == FileOf(file, key, month, year);
    }
  }

  // ---------------------------------------------------------------------------
  // main: defaults and validation of --year and --month
  // ---------------------------------------------------------------------------

  const MonthNames: seq<string> := ["January", "February", "March", "April", "May", "June",
                                    "July", "August", "September", "October", "November", "December"]

  datatype ArgError = YearOutOfRange | UnknownMonth

  /**
   * The year and month as `main` resolves them: a missing (or, as written,
   * false) value takes its default, then the year must lie in 1900..3000 and
   * the month must be one of the twelve names.
   */
  function Validated(year: int, month: string): Result<(int, string), ArgError>
  {
    if year < 1900 || year > 3000 then Err(YearOutOfRange)
    else if month !in MonthNames then Err(UnknownMonth)
    else Ok((year, month))
  }

  /** As written: `args.year if args.year else 2026` replaces a year of 0, and an empty month, by the default. */
  function ResolveArgsAsWritten(year: Option<int>, month: Option<string>): Result<(int, string), ArgError>
  {
    Validated(if year.Some? && year.value != 0 then year.value else 2026,
              if month.Some? && month.value != "" then month.value else "September")
  }

  /** The defaults apply only to an argument that was not given. */
  function ResolveArgs(year: Option<int>, month: Option<string>): Result<(int, string), ArgError>
  {
    Validated(if year.Some? then year.value else 2026, if month.Some? then month.value else "September")
  }

  /**
   * A given year is accepted exactly when it lies in 1900..3000, a given month
   * exactly when it is one of the twelve names; absent, they are 2026 and
   * September. The year is checked first.
   */
  lemma ResolveArgsSpec(year: Option<int>, month: Option<string>)
    ensures var y := if year.Some? then year.value else 2026;
            var m := if month.Some? then month.value else "September";
            (ResolveArgs(year, month) == Ok((y, m)) <==> 1900 <= y <= 3000 && m in MonthNames)
            && (ResolveArgs(year, month) == Err(YearOutOfRange) <==> !(1900 <= y <= 3000))
            && (ResolveArgs(year, month) == Err(UnknownMonth) <==> 1900 <= y <= 3000 && m !in MonthNames)
  {
  }

  /** `--year 0` and `--month ""` slip past the checks as written, and are rejected once corrected. */
  lemma FalsyArgumentsSlipThrough()
    ensures ResolveArgsAsWritten(Some(0), None) == Ok((2026, "September"))
    ensures ResolveArgs(Some(0), None) == Err(YearOutOfRange)
    ensures ResolveArgsAsWritten(None, Some("")) == Ok((2026, "September"))
    ensures ResolveArgs(None, Some("")) == Err(UnknownMonth)
  {
    assert "September" == MonthNames[8];
    assert "" !in MonthNames;
  }

  /** On every other input the corrected resolution agrees with the code as written. */
  lemma ResolveArgsAgrees(year: Option<int>, month: Option<string>)
    requires year != Some(0) && month != Some("")
    ensures ResolveArgs(year, month) == ResolveArgsAsWritten(year, month)
  {
  }

  datatype RunError = NoInputPath | InputNotFound | BadArgument(error: ArgError)

  /**
   * The static branch of `main` once the arguments are resolved: usage without
   * an input path, an error when the file does not exist, then the argument
   * checks and generation. Whether the file exists is passed in.
   */
  function RunWith(inputPath: Option<string>, inputExists: bool, file: seq<seq<string>>,
                   resolved: Result<(int, string), ArgError>): Result<seq<IcsFile>, RunError>
  {
    if inputPath.None? || inputPath.value == "" then Err(NoInputPath)
    else if !inputExists then Err(InputNotFound)
    else
      match resolved
      case Err(e) => Err(BadArgument(e))
      case Ok((y, m)) => Ok(StaticFiles(file, m, y))
  }

  /** The static branch of `main` as written. */
  function RunStatic(inputPath: Option<string>, inputExists: bool, file: seq<seq<string>>,
                     year: Option<int>, month: Option<string>): Result<seq<IcsFile>, RunError>
  {
    RunWith(inputPath, inputExists, file, ResolveArgsAsWritten(year, month))
  }

  /** The static branch of `main` with the defaults applied only to absent arguments. */
  function RunStaticIntended(inputPath: Option<string>, inputExists: bool, file: seq<seq<string>>,
                             year: Option<int>, month: Option<string>): Result<seq<IcsFile>, RunError>
  {
    RunWith(inputPath, inputExists, file, ResolveArgs(year, month))
  }

  /**
   * As written, a year that is absent or 0 is 2026 and a month that is absent
   * or empty is September; the result must then lie in 1900..3000 and be one
   * of the twelve names. The year is checked first.
   */
  lemma ResolveArgsAsWrittenSpec(year: Option<int>, month: Option<string>)
    ensures var y := if year.Some? && year.value != 0 then year.value else 2026;
            var m := if month.Some? && month.value != "" then month.value else "September";
            (ResolveArgsAsWritten(year, month) == Ok((y, m)) <==> 1900 <= y <= 3000 && m in MonthNames)
            && (ResolveArgsAsWritten(year, month) == Err(YearOutOfRange) <==> !(1900 <= y <= 3000))
            && (ResolveArgsAsWritten(year, month) == Err(UnknownMonth) <==> 1900 <= y <= 3000 && m !in MonthNames)
  {
  }

  /**
   * As written, files are generated exactly when an input path is given and
   * exists and the resolved arguments pass their checks; they are the static
   * files of the resolved year and month.
   */
  lemma RunStaticValidates(inputPath: Option<string>, inputExists: bool, file: seq<seq<string>>,
                           year: Option<int>, month: Option<string>)
    ensures RunStatic(inputPath, inputExists, file, year, month).Ok? <==>
            inputPath.Some? && inputPath.value != "" && inputExists && ResolveArgsAsWritten(year, month).Ok?
    ensures RunStatic(inputPath, inputExists, file, year, month).Ok? ==>
            var y := ResolveArgsAsWritten(year, month).value.0;
            var m := ResolveArgsAsWritten(year, month).value.1;
            1900 <= y <= 3000 && m in MonthNames
            && RunStatic(inputPath, inputExists, file, year, month).value == StaticFiles(file, m, y)
  {
  }

  /** As written, `--year 0` on an existing input writes the 2026 September files. */
  lemma RunStaticYearZero(inputPath: string, file: seq<seq<string>>)
    requires inputPath != ""
    ensures RunStatic(Some(inputPath), true, file, Some(0), None) == Ok(StaticFiles(file, "September", 2026))
    ensures RunStaticIntended(Some(inputPath), true, file, Some(0), None) == Err(BadArgument(YearOutOfRange))
  {
    FalsyArgumentsSlipThrough();
  }

  /** With the intended defaults, files are generated only for arguments that pass as given. */
  lemma RunStaticIntendedValidates(inputPath: Option<string>, inputExists: bool, file: seq<seq<string>>,
                                   year: Option<int>, month: Option<string>)
    ensures RunStaticIntended(inputPath, inputExists, file, year, month).Ok? <==>
            inputPath.Some? && inputPath.value != "" && inputExists && ResolveArgs(year, month).Ok?
    ensures RunStaticIntended(inputPath, inputExists, file, year, month).Ok? ==>
            var y := if year.Some? then year.value else 2026;
            var m := if month.Some? then month.value else "September";
            1900 <= y <= 3000 && m in MonthNames
            && RunStaticIntended(inputPath, inputExists, file, year, month).value == StaticFiles(file, m, y)
  {
    ResolveArgsSpec(year, month);
  }
}
