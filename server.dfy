/**
 * The HTTP side of `calendar_server.py` (class `CalendarHandler`): which
 * feed a `/calendar/...` path asks for, the events `generate_calendar` puts
 * into that feed, and the routing of `do_GET`.
 *
 * A request is given as its path and the first value of its `group` query
 * parameter; the headers, the HTML of the landing page and the ICS text are
 * not modelled, only the values they are built from.
 */
module CalendarServer {
  import opened Base
  import opened Text
  import opened Dates
  import opened ModuleGroups
  import opened Store

  // ---------------------------------------------------------------------------
  // Which feed a path asks for (serve_calendar)
  // ---------------------------------------------------------------------------

  /** The file name, group argument and calendar name `serve_calendar` derives from a path. */
  datatype FeedRequest = FeedRequest(fileName: string, group: Option<string>, calendarName: string)

  const AllFeedName: string := "All Assignment Deadlines April 2026"

  function CalendarRequest(path: string): FeedRequest
  {
    var fileName := LastSegment(path);
    if fileName == "all.ics" then FeedRequest(fileName, None, AllFeedName)
    else
      var group := Upper(RemoveAll(fileName, ".ics"));
      FeedRequest(fileName, Some(group), group + " Marking Deadlines April 2026")
  }

  /** The path of a group's feed on the landing page: `/calendar/{group.lower()}.ics`. */
  function FeedPath(group: string): string
  {
    "/calendar/" + Lower(group) + ".ics"
  }

  /** Upper-case ASCII letters and digits, the characters of every group key. */
  predicate IsKeyText(g: string)
  {
    forall i :: 0 <= i < |g| ==> ('A' <= g[i] <= 'Z' || IsDigit(g[i]))
  }

  lemma KeysAreKeyText(g: string)
    requires g in Keys
    ensures IsKeyText(g) && g != "ALL"
  {
  }

  lemma {:induction false} LastSegmentAfterSlash(pre: string, name: string)
    requires forall i :: 0 <= i < |name| ==> name[i] != '/'
    ensures LastSegment(pre + "/" + name) == name
    decreases |name|
  {
    var s := pre + "/" + name;
    if name == [] {
      assert s[|s| - 1] == '/';
    } else {
      var init := name[..|name| - 1];
      assert s[..|s| - 1] == pre + "/" + init;
      LastSegmentAfterSlash(pre, init);
      assert name == init + [name[|name| - 1]];
    }
  }

  lemma FeedPathSegment(g: string)
    requires IsKeyText(g)
    ensures LastSegment(FeedPath(g)) == Lower(g) + ".ics"
  {
    var l := Lower(g);
    forall i | 0 <= i < |l + ".ics"| ensures (l + ".ics")[i] != '/' {
      if i < |l| {
        assert (l + ".ics")[i] == LowerChar(g[i]);
      } else {
        assert (l + ".ics")[i] == ".ics"[i - |l|];
      }
    }
    assert FeedPath(g) == "/calendar" + "/" + (l + ".ics");
    LastSegmentAfterSlash("/calendar", l + ".ics");
  }

  lemma UpperLower(g: string)
    requires IsKeyText(g)
    ensures Upper(Lower(g)) == g && forall i :: 0 <= i < |g| ==> Lower(g)[i] != '.'
  {
  }

  lemma LowerNotAll(g: string)
    requires IsKeyText(g) && g != "ALL"
    ensures Lower(g) + ".ics" != "all.ics"
  {
    var l := Lower(g);
    UpperLower(g);
    assert Upper("all") == "ALL";
    assert Upper(l) != Upper("all");
    assert (l + ".ics")[..|l|] == l;
    assert "all.ics"[..3] == "all";
  }

  /**
   * The feed path the landing page links for a group asks for that group:
   * lower-casing it, appending `.ics`, and `serve_calendar`'s
   * `split('/')[-1]`, `replace('.ics', '')` and `upper()` give the group back.
   */
  lemma FeedPathRoundTrip(g: string)
    requires IsKeyText(g) && g != "ALL"
    ensures CalendarRequest(FeedPath(g)) ==
            FeedRequest(Lower(g) + ".ics", Some(g), g + " Marking Deadlines April 2026")
  {
    FeedPathSegment(g);
    UpperLower(g);
    RemoveAllSuffix(Lower(g), ".ics");
    LowerNotAll(g);
  }

  // ---------------------------------------------------------------------------
  // The calendar of a feed (generate_calendar)
  // ---------------------------------------------------------------------------

  /** The fields of an `ics.Event` the server sets. */
  datatype Event = Event(
    name: string,
    begin: Date,
    end: Date,
    description: string,
    categories: seq<string>,
    uid: string)

  /** An `ics.Calendar` with its creator, the three extra name lines and its events. */
  datatype Calendar = Calendar(
    creator: string,
    calName: string,
    calDesc: string,
    displayName: string,
    events: seq<Event>)

  function Uid(moduleCode: string, assignmentCode: string, deadline: string): string
  {
    moduleCode + "-" + assignmentCode + "-" + deadline + "@deadlines-calendar"
  }

  /** The event for one selected row whose deadline text parsed as `day`. */
  function EventFor(x: Row, group: Option<string>, day: Date): Event
  {
    Event(x.moduleCode + " " + x.assignmentCode + " deadline", day, day,
          "Assignment deadline for " + x.moduleCode + " " + x.assignmentCode,
          if Truthy(group) then [group.value] else ["Assignment"],
          Uid(x.moduleCode, x.assignmentCode, x.deadline))
  }

  /**
   * The events of the selected rows in order, or the first deadline text that
   * `strptime(..., "%Y-%m-%d")` rejects, which aborts the request.
   */
  function Events(selected: seq<Row>, group: Option<string>): Result<seq<Event>, string>
  {
    if selected == [] then Ok([])
    else
      var x := selected[|selected| - 1];
      match Events(selected[..|selected| - 1], group)
      case Err(text) => Err(text)
      case Ok(events) =>
        match ParseIso(x.deadline)
        case None => Err(x.deadline)
        case Some(day) => Ok(events + [EventFor(x, group, day)])
  }

  function CalendarFor(rows: seq<Row>, group: Option<string>, name: string): Result<Calendar, string>
  {
    match Events(Select(rows, group), group)
    case Err(text) => Err(text)
    case Ok(events) => Ok(Calendar(name, name, "ActEd " + name, name, events))
  }

  /** Once a prefix of the rows has failed, the whole feed fails with the same text. */
  lemma {:induction false} EventsErrPersists(s: seq<Row>, t: seq<Row>, group: Option<string>)
    requires Events(s, group).Err?
    ensures Events(s + t, group) == Events(s, group)
    decreases |t|
  {
    if t == [] {
      assert s + t == s;
    } else {
      var init := t[..|t| - 1];
      assert (s + t)[..|s + t| - 1] == s + init;
      EventsErrPersists(s, init, group);
    }
  }

  /** Every row's deadline is `%Y-%m-%d` text. */
  predicate AllIso(s: seq<Row>)
  {
    forall k :: 0 <= k < |s| ==> ParseIso(s[k].deadline).Some?
  }

  /**
   * When every selected deadline is `%Y-%m-%d` text the feed holds one event
   * per selected row, in order, dated by that row.
   */
  lemma {:induction false} EventsOk(s: seq<Row>, group: Option<string>)
    requires AllIso(s)
    ensures Events(s, group).Ok? && |Events(s, group).value| == |s|
    ensures forall k :: 0 <= k < |s| ==>
              Events(s, group).value[k] == EventFor(s[k], group, ParseIso(s[k].deadline).value)
    decreases |s|
  {
    if s != [] {
      var init, x := s[..|s| - 1], s[|s| - 1];
      assert s == init + [x];
      assert AllIso(init) by {
        forall k | 0 <= k < |init| ensures ParseIso(init[k].deadline).Some? {
          assert init[k] == s[k];
        }
      }
      EventsOk(init, group);
      EventsSnoc(init, x, group);
    }
  }

  /** Any deadline that is not `%Y-%m-%d` text makes the feed fail. */
  lemma {:induction false} EventsErr(s: seq<Row>, group: Option<string>, k: int)
    requires 0 <= k < |s| && ParseIso(s[k].deadline).None?
    ensures Events(s, group).Err?
    decreases |s|
  {
    var init := s[..|s| - 1];
    if k < |s| - 1 {
      assert init[k] == s[k];
      EventsErr(init, group, k);
    }
  }

  /** A feed succeeds exactly when every selected deadline is `%Y-%m-%d` text. */
  lemma EventsSpec(s: seq<Row>, group: Option<string>)
    ensures Events(s, group).Ok? <==> AllIso(s)
  {
    if AllIso(s) {
      EventsOk(s, group);
    } else {
      var k :| 0 <= k < |s| && ParseIso(s[k].deadline).None?;
      EventsErr(s, group, k);
    }
  }

  /** `Events` of one more row. */
  lemma EventsSnoc(s: seq<Row>, x: Row, group: Option<string>)
    ensures Events(s + [x], group) ==
            if Events(s, group).Err? then Events(s, group)
            else if ParseIso(x.deadline).None? then Err(x.deadline)
            else Ok(Events(s, group).value + [EventFor(x, group, ParseIso(x.deadline).value)])
  {
    assert (s + [x])[..|s|] == s;
  }

  /** `generate_calendar`: the named calendar of the selected rows' events. */
  method GenerateCalendar(table: DeadlineTable, group: Option<string>, name: string)
    returns (res: Result<Calendar, string>)
    ensures res == CalendarFor(table.rows, group, name)
  {
    var deadlines := Select(table.rows, group);
    var events := EventsOf(deadlines, group);
    if events.Err? {
      return Err(events.error);
    }
    res := Ok(Calendar(name, name, "ActEd " + name, name, events.value));
  }

  /** A deadline that does not parse, after rows that all did, is the failure of the whole list. */
  lemma EventsAbortAt(s: seq<Row>, i: int, group: Option<string>)
    requires 0 <= i < |s| && Events(s[..i + 1], group) == Err(s[i].deadline)
    ensures Events(s, group) == Err(s[i].deadline)
  {
    EventsErrPersists(s[..i + 1], s[i + 1..], group);
    assert s[..i + 1] + s[i + 1..] == s;
  }

  /** The loop of `generate_calendar` over the selected rows. */
  method EventsOf(deadlines: seq<Row>, group: Option<string>) returns (res: Result<seq<Event>, string>)
    ensures res == Events(deadlines, group)
  {
    var events: seq<Event> := [];
    var i := 0;
    while i < |deadlines|
      invariant 0 <= i <= |deadlines|
      invariant Events(deadlines[..i], group) == Ok(events)
    {
      var x := deadlines[i];
      assert deadlines[..i + 1] == deadlines[..i] + [x];
      EventsSnoc(deadlines[..i], x, group);
      var day := ParseIso(x.deadline);
      if day.None? {
        EventsAbortAt(deadlines, i, group);
        return Err(x.deadline);
      }
      events := events + [EventFor(x, group, day.value)];
      i := i + 1;
    }
    assert deadlines[..i] == deadlines;
    res := Ok(events);
  }

  // ---------------------------------------------------------------------------
  // Feeds of an imported table
  // ---------------------------------------------------------------------------

  lemma SelectedFromTable(rows: seq<Row>, group: Option<string>, k: int)
    requires 0 <= k < |Select(rows, group)|
    ensures Select(rows, group)[k] in rows && Selected(Select(rows, group)[k], group)
  {
    var x := Select(rows, group)[k];
    assert x in multiset(Select(rows, group));
  }

  /**
   * After an import every feed can be served: each event is the row's
   * deadline on a single day, the date of the deadline column of the file
   * line that stored the row, with the feed's category.
   */
  lemma ImportedFeedEvents(file: seq<seq<string>>, group: Option<string>, name: string)
    ensures CalendarFor(ImportRows(file), group, name).Ok?
    ensures var events := CalendarFor(ImportRows(file), group, name).value.events;
            var selected := Select(ImportRows(file), group);
            |events| == |selected|
            && forall k :: 0 <= k < |events| ==>
                 events[k].begin == events[k].end
                 && events[k].categories == (if Truthy(group) then [group.value] else ["Assignment"])
                 && exists j :: 0 <= j < |file| && ParseLine(file[j]) == Some(selected[k])
                                && ParseDmy(Strip(file[j][3])) == Some(events[k].begin)
  {
    var rows := ImportRows(file);
    var selected := Select(rows, group);
    forall k | 0 <= k < |selected| ensures ParseIso(selected[k].deadline).Some? {
      SelectedFromTable(rows, group, k);
      ImportShape(file, selected[k]);
    }
    EventsOk(selected, group);
    var events := Events(selected, group).value;
    forall k | 0 <= k < |events|
      ensures exists j :: 0 <= j < |file| && ParseLine(file[j]) == Some(selected[k])
                          && ParseDmy(Strip(file[j][3])) == Some(events[k].begin)
    {
      SelectedFromTable(rows, group, k);
      ImportRowsDerived(file, selected[k]);
      var j :| 0 <= j < |file| && ParseLine(file[j]) == Some(selected[k]);
      ParseLineShape(file[j], selected[k]);
    }
  }

  /** `m-c-d` followed by a fixed suffix determines its parts when `m` has no `-` and `d` a fixed length. */
  lemma {:induction false} DashJoinInjective(m: string, c: string, d: string, m': string, c': string, d': string,
                                             suffix: string)
    requires Lacks(m, '-') && Lacks(m', '-') && |d| == |d'|
    requires m + "-" + (c + "-" + d + suffix) == m' + "-" + (c' + "-" + d' + suffix)
    ensures m == m' && c == c' && d == d'
  {
    var u := m + "-" + (c + "-" + d + suffix);
    IndexOfJoin(m, '-', c + "-" + d + suffix);
    IndexOfJoin(m', '-', c' + "-" + d' + suffix);
    assert m == u[..|m|] == m';
    var tail := u[|m| + 1..];
    assert tail == c + "-" + d + suffix == c' + "-" + d' + suffix;
    assert c == tail[..|c|] == c';
    assert d == tail[|c| + 1..|c| + 1 + |d|] == d';
  }

  /**
   * Event UIDs identify the row when module codes hold no `-` and deadlines
   * have one length (ISO dates always do): the same UID means the same module,
   * assignment and deadline.
   */
  lemma UidInjective(m: string, c: string, d: string, m': string, c': string, d': string)
    requires Lacks(m, '-') && Lacks(m', '-') && |d| == |d'|
    requires Uid(m, c, d) == Uid(m', c', d')
    ensures m == m' && c == c' && d == d'
  {
    var suffix := "@deadlines-calendar";
    assert Uid(m, c, d) == m + "-" + (c + "-" + d + suffix);
    assert Uid(m', c', d') == m' + "-" + (c' + "-" + d' + suffix);
    DashJoinInjective(m, c, d, m', c', d', suffix);
  }

  /** With a `-` in a module code two different rows can share a UID. */
  lemma UidCollision()
    ensures var d := "2026-04-01";
            Key("CM1-A", "B", DefaultAcademicYear) != Key("CM1", "A-B", DefaultAcademicYear)
            && Uid("CM1-A", "B", d) == Uid("CM1", "A-B", d)
  {
    assert "CM1-A" != "CM1" by {
      assert |"CM1-A"| != |"CM1"|;
    }
  }

  lemma {:induction false} UniqueOnce(s: seq<Row>, x: Row)
    requires KeysUnique(s)
    ensures multiset(s)[x] <= 1
  {
    if s != [] {
      var tail := s[1..];
      assert s == [s[0]] + tail;
      assert KeysUnique(tail) by {
        forall i, j | 0 <= i < |tail| && 0 <= j < |tail| && KeyOf(tail[i]) == KeyOf(tail[j])
          ensures i == j
        {
          assert tail[i] == s[i + 1] && tail[j] == s[j + 1];
        }
      }
      UniqueOnce(tail, x);
      if x == s[0] {
        forall k | 0 <= k < |tail| ensures tail[k] != x {
          assert tail[k] == s[k + 1];
        }
        assert x !in tail;
      }
    }
  }

  /** A value found again after the head of a sequence occurs there twice. */
  lemma HeadRepeated(t: seq<Row>, k: int)
    requires 0 < k < |t| && t[k] == t[0]
    ensures multiset(t)[t[0]] >= 2
  {
    var tail := t[1..];
    assert t == [t[0]] + tail;
    assert tail[k - 1] == t[0];
  }

  /** In a sequence holding `t[i]` at most once, only index `i` holds it. */
  lemma {:induction false} OnceOneIndex(t: seq<Row>, i: int, j: int)
    requires 0 <= i < |t| && 0 <= j < |t| && t[i] == t[j]
    requires multiset(t)[t[i]] <= 1
    ensures i == j
  {
    if 0 < i && 0 < j {
      var tail := t[1..];
      assert t == [t[0]] + tail;
      assert tail[i - 1] == t[i] && tail[j - 1] == t[j];
      OnceOneIndex(tail, i - 1, j - 1);
    } else if 0 < i {
      HeadRepeated(t, i);
    } else if 0 < j {
      HeadRepeated(t, j);
    }
  }

  /** A selection from a table with unique keys has unique keys. */
  lemma SelectUnique(rows: seq<Row>, group: Option<string>)
    requires KeysUnique(rows)
    ensures KeysUnique(Select(rows, group))
  {
    var t := Select(rows, group);
    forall i, j | 0 <= i < |t| && 0 <= j < |t| && KeyOf(t[i]) == KeyOf(t[j])
      ensures i == j
    {
      SelectedFromTable(rows, group, i);
      SelectedFromTable(rows, group, j);
      var a :| 0 <= a < |rows| && rows[a] == t[i];
      var b :| 0 <= b < |rows| && rows[b] == t[j];
      assert a == b;
      UniqueOnce(rows, t[i]);
      OnceOneIndex(t, i, j);
    }
  }

  /**
   * Within one feed of an imported table, two events of modules without a
   * `-` in their code never share a UID.
   */
  lemma ImportedFeedUidsDistinct(file: seq<seq<string>>, group: Option<string>, name: string, i: int, j: int)
    requires CalendarFor(ImportRows(file), group, name).Ok?
    requires var events := CalendarFor(ImportRows(file), group, name).value.events;
             0 <= i < |events| && 0 <= j < |events| && events[i].uid == events[j].uid
    requires var selected := Select(ImportRows(file), group);
             0 <= i < |selected| && 0 <= j < |selected|
             && Lacks(selected[i].moduleCode, '-') && Lacks(selected[j].moduleCode, '-')
    ensures i == j
  {
    var rows := ImportRows(file);
    var selected := Select(rows, group);
    SelectedFromTable(rows, group, i);
    SelectedFromTable(rows, group, j);
    var x, y := selected[i], selected[j];
    ImportShape(file, x);
    ImportShape(file, y);
    var dx, dy := ParseIso(x.deadline).value, ParseIso(y.deadline).value;
    assert |x.deadline| == |IsoFormat(dx)| == 10;
    assert |y.deadline| == |IsoFormat(dy)| == 10;
    forall k | 0 <= k < |selected| ensures ParseIso(selected[k].deadline).Some? {
      SelectedFromTable(rows, group, k);
      ImportShape(file, selected[k]);
    }
    EventsOk(selected, group);
    UidInjective(x.moduleCode, x.assignmentCode, x.deadline, y.moduleCode, y.assignmentCode, y.deadline);
    ImportKeysUnique(file);
    SelectUnique(rows, group);
    assert KeyOf(x) == KeyOf(y);
  }

  lemma {:induction false} FilterUntruthy(rows: seq<Row>, group: Option<string>)
    requires !Truthy(group)
    ensures FilterRows(rows, group) == FilterRows(rows, None)
  {
    if rows != [] {
      FilterUntruthy(rows[1..], group);
    }
  }

  /** A group argument Python reads as false selects like no group at all. */
  lemma SelectUntruthy(rows: seq<Row>, group: Option<string>)
    requires !Truthy(group)
    ensures Select(rows, group) == Select(rows, None)
  {
    FilterUntruthy(rows, group);
  }

  lemma EmptyFeedRequest()
    ensures CalendarRequest("/calendar/.ics").group == Some("")
  {
    LastSegmentAfterSlash("/calendar", ".ics");
    assert "/calendar/.ics" == "/calendar" + "/" + ".ics";
    assert RemoveAll(".ics", ".ics") == [];
  }

  /** `/calendar/.ics` asks for the group `""`, which selects like no group at all. */
  lemma EmptyGroupFeedIsAll(rows: seq<Row>, name: string, name': string)
    ensures CalendarRequest("/calendar/.ics").group == Some("")
    ensures CalendarFor(rows, Some(""), name).Ok? <==> CalendarFor(rows, None, name').Ok?
    ensures CalendarFor(rows, Some(""), name).Ok? ==>
              CalendarFor(rows, Some(""), name).value.events == CalendarFor(rows, None, name').value.events
  {
    EmptyFeedRequest();
    SelectUntruthy(rows, Some(""));
    EventsUntruthy(Select(rows, None), Some(""));
  }

  /** Events of a group argument Python reads as false are those of no group. */
  lemma {:induction false} EventsUntruthy(s: seq<Row>, group: Option<string>)
    requires !Truthy(group)
    ensures Events(s, group) == Events(s, None)
  {
    if s != [] {
      var init, x := s[..|s| - 1], s[|s| - 1];
      assert s == init + [x];
      EventsUntruthy(init, group);
      EventsSnoc(init, x, group);
      EventsSnoc(init, x, None);
    }
  }

  // ---------------------------------------------------------------------------
  // The JSON endpoints and the landing page
  // ---------------------------------------------------------------------------

  /** `serve_deadlines` treats the group `ALL` as no group. */
  function DeadlinesGroup(groupParam: Option<string>): (g: Option<string>)
    ensures groupParam == Some("ALL") ==> g == None
    ensures groupParam != Some("ALL") ==> g == groupParam
  {
    if groupParam == Some("ALL") then None else groupParam
  }

  /** The columns `get_deadlines_by_group` returns for one row. */
  datatype DeadlineEntry = DeadlineEntry(
    moduleCode: string,
    assignmentCode: string,
    title: string,
    deadline: string,
    recommend: Option<string>)

  function Entries(rows: seq<Row>): (r: seq<DeadlineEntry>)
    ensures |r| == |rows|
  {
    seq(|rows|, k requires 0 <= k < |rows| =>
      DeadlineEntry(rows[k].moduleCode, rows[k].assignmentCode, rows[k].title, rows[k].deadline, rows[k].recommend))
  }

  /** A feed link of the landing page: its title and the path it subscribes to. */
  datatype FeedLink = FeedLink(title: string, path: string)

  /**
   * The landing page's links: one per group, then the combined feed. This is
   * the page with the host bound before the loop over the groups, so that the
   * combined link exists for every group list.
   */
  function IndexLinks(groups: seq<string>): (r: seq<FeedLink>)
    ensures |r| == |groups| + 1
  {
    seq(|groups|, k requires 0 <= k < |groups| =>
      FeedLink(groups[k] + " Assignment Deadlines April 2026", FeedPath(groups[k])))
    + [FeedLink("ALL - All Assignment Deadlines", "/calendar/all.ics")]
  }

  /**
   * `serve_index` as written: the host names of the links are bound only
   * inside the loop over the groups, so with no group the combined link
   * raises `UnboundLocalError` and there is no page.
   */
  function ServeIndex(groups: seq<string>): (r: Option<seq<FeedLink>>)
    ensures r.None? <==> groups == []
  {
    if groups == [] then None else Some(IndexLinks(groups))
  }

  // ---------------------------------------------------------------------------
  // do_GET
  // ---------------------------------------------------------------------------

  datatype Response =
    | IndexPage(links: seq<FeedLink>)
    | IcsFeed(fileName: string, calendar: Calendar)
    | GroupsJson(groups: seq<string>)
    | DeadlinesJson(deadlines: seq<DeadlineEntry>)
    | NoContent
    | NotFound
    | Aborted(badDeadline: string)
    | IndexUnbound

  /** The HTTP status sent; an aborted handler sends none. */
  function Status(r: Response): Option<int>
  {
    match r
    case NoContent => Some(204)
    case NotFound => Some(404)
    case Aborted(_) => None
    case IndexUnbound => None
    case _ => Some(200)
  }

  /** `serve_calendar`: the feed a `/calendar/...` path names, or the aborted request. */
  function ServeCalendar(rows: seq<Row>, path: string): (r: Response)
    ensures r.IcsFeed? || r.Aborted?
  {
    var request := CalendarRequest(path);
    match CalendarFor(rows, request.group, request.calendarName)
    case Err(text) => Aborted(text)
    case Ok(calendar) => IcsFeed(request.fileName, calendar)
  }

  /** `serve_deadlines`: the selected rows' columns, with `ALL` read as no group. */
  function ServeDeadlines(rows: seq<Row>, groupParam: Option<string>): seq<DeadlineEntry>
  {
    Entries(Select(rows, DeadlinesGroup(groupParam)))
  }

  /** What `do_GET` answers for a table, a path and the first `group` query value. */
  function Respond(rows: seq<Row>, path: string, groupParam: Option<string>): Response
  {
    if path == "/" then
      match ServeIndex(ModuleGroupList(rows))
      case None => IndexUnbound
      case Some(links) => IndexPage(links)
    else if StartsWith(path, "/calendar/") then ServeCalendar(rows, path)
    else if path == "/api/groups" then GroupsJson(ModuleGroupList(rows))
    else if path == "/api/deadlines" then DeadlinesJson(ServeDeadlines(rows, groupParam))
    else if path == "/favicon.ico" then NoContent
    else NotFound
  }

  method DoGet(table: DeadlineTable, path: string, groupParam: Option<string>) returns (response: Response)
    ensures response == Respond(table.rows, path, groupParam)
  {
    if path == "/" {
      var groups := ModuleGroupList(table.rows);
      if groups == [] {
        response := IndexUnbound;
      } else {
        response := IndexPage(IndexLinks(groups));
      }
    } else if StartsWith(path, "/calendar/") {
      var request := CalendarRequest(path);
      var calendar := GenerateCalendar(table, request.group, request.calendarName);
      if calendar.Err? {
        response := Aborted(calendar.error);
      } else {
        response := IcsFeed(request.fileName, calendar.value);
      }
    } else if path == "/api/groups" {
      response := GroupsJson(ModuleGroupList(table.rows));
    } else if path == "/api/deadlines" {
      response := DeadlinesJson(ServeDeadlines(table.rows, groupParam));
    } else if path == "/favicon.ico" {
      response := NoContent;
    } else {
      response := NotFound;
    }
  }

  /**
   * The routes: 404 exactly for a path that is none of `/`, `/api/groups`,
   * `/api/deadlines`, `/favicon.ico` and does not start with `/calendar/`;
   * 204 exactly for `/favicon.ico`; and a request sends nothing only when a
   * feed aborts or when `/` is asked of a table with no active group.
   */
  lemma RouteStatus(rows: seq<Row>, path: string, groupParam: Option<string>)
    ensures Status(Respond(rows, path, groupParam)) == Some(404) <==>
              path != "/" && !StartsWith(path, "/calendar/") && path != "/api/groups"
              && path != "/api/deadlines" && path != "/favicon.ico"
    ensures Status(Respond(rows, path, groupParam)) == Some(204) <==> path == "/favicon.ico"
    ensures Status(Respond(rows, path, groupParam)).None? ==>
              StartsWith(path, "/calendar/") || (path == "/" && ModuleGroupList(rows) == [])
    ensures path == "/" ==> (Status(Respond(rows, path, groupParam)).None? <==> ModuleGroupList(rows) == [])
  {
    assert !StartsWith("/favicon.ico", "/calendar/") by {
      assert "/favicon.ico"[1] != "/calendar/"[1];
    }
  }
  /**
   * A table that holds no row, as on a fresh database or after an import
   * that stored no line, has no landing page: `GET /` sends nothing.
   */
  lemma EmptyTableIndexFails(groupParam: Option<string>)
    ensures Respond([], "/", groupParam) == IndexUnbound
    ensures Status(Respond([], "/", groupParam)).None?
    ensures Status(RespondIntended([], "/", groupParam)) == Some(200)
  {
  }

  /** `do_GET` with the host bound before the landing page's loop. */
  function RespondIntended(rows: seq<Row>, path: string, groupParam: Option<string>): Response
  {
    if path == "/" then IndexPage(IndexLinks(ModuleGroupList(rows)))
    else Respond(rows, path, groupParam)
  }

  /**
   * With the host bound first, `/` always answers 200 with one link per
   * group and then the combined link, which asks for the feed of every
   * group; everywhere the program as written answers, the answers agree.
   */
  lemma RespondIntendedIndex(rows: seq<Row>, groupParam: Option<string>)
    ensures var r := RespondIntended(rows, "/", groupParam);
            r.IndexPage? && Status(r) == Some(200)
            && |r.links| == |ModuleGroupList(rows)| + 1
            && r.links[|r.links| - 1].path == "/calendar/all.ics"
            && CalendarRequest(r.links[|r.links| - 1].path) == FeedRequest("all.ics", None, AllFeedName)
    ensures ModuleGroupList(rows) != [] ==> RespondIntended(rows, "/", groupParam) == Respond(rows, "/", groupParam)
  {
    LastSegmentAfterSlash("/calendar", "all.ics");
    assert "/calendar/all.ics" == "/calendar" + "/" + "all.ics";
  }

  /** With the host bound first, only a feed can leave a request unanswered. */
  lemma RouteStatusIntended(rows: seq<Row>, path: string, groupParam: Option<string>)
    ensures Status(RespondIntended(rows, path, groupParam)).None? ==> StartsWith(path, "/calendar/")
  {
    RouteStatus(rows, path, groupParam);
  }


  /** `/api/deadlines?group=ALL` lists every active deadline, as no group does. */
  lemma DeadlinesAllIsEveryGroup(rows: seq<Row>)
    ensures ServeDeadlines(rows, Some("ALL")) == ServeDeadlines(rows, None)
    ensures ServeDeadlines(rows, Some("ALL")) == ServeDeadlines(rows, Some(""))
  {
    SelectUntruthy(rows, Some(""));
  }

  lemma {:induction false} FilterNone(rows: seq<Row>, group: Option<string>)
    requires forall k :: 0 <= k < |rows| ==> !Selected(rows[k], group)
    ensures FilterRows(rows, group) == []
  {
    if rows != [] {
      FilterNone(rows[1..], group);
    }
  }

  /**
   * Only the exact text `ALL` is mapped: `group=all` is upper-cased by the
   * query into the group `ALL`, which no imported row has.
   */
  lemma DeadlinesLowerAllIsEmpty(file: seq<seq<string>>)
    ensures ServeDeadlines(ImportRows(file), Some("all")) == []
  {
    var rows := ImportRows(file);
    assert Upper("all") == "ALL";
    assert "ALL" !in Keys;
    forall k | 0 <= k < |rows| ensures !Selected(rows[k], Some("all")) {
      ImportShape(file, rows[k]);
    }
    FilterNone(rows, Some("all"));
  }

  /**
   * Every group link on the landing page of an imported table subscribes to
   * that group's feed: the path asks for the group, named after it.
   */
  lemma IndexLinksServeTheirGroup(file: seq<seq<string>>, k: int)
    requires 0 <= k < |ModuleGroupList(ImportRows(file))|
    ensures var g := ModuleGroupList(ImportRows(file))[k];
            var link := IndexLinks(ModuleGroupList(ImportRows(file)))[k];
            StartsWith(link.path, "/calendar/")
            && CalendarRequest(link.path).group == Some(g)
            && CalendarRequest(link.path).calendarName == g + " Marking Deadlines April 2026"
  {
    var groups := ModuleGroupList(ImportRows(file));
    var g := groups[k];
    assert g in groups;
    var x :| x in ImportRows(file) && x.active && x.group == g;
    ImportShape(file, x);
    LinkServesGroup(groups, k);
  }

  /** The `k`-th link of a landing page whose `k`-th group is a module group asks for that group. */
  lemma LinkServesGroup(groups: seq<string>, k: int)
    requires 0 <= k < |groups| && groups[k] in Keys
    ensures var link := IndexLinks(groups)[k];
            StartsWith(link.path, "/calendar/")
            && CalendarRequest(link.path).group == Some(groups[k])
            && CalendarRequest(link.path).calendarName == groups[k] + " Marking Deadlines April 2026"
  {
    var g := groups[k];
    KeysAreKeyText(g);
    FeedPathRoundTrip(g);
    assert FeedPath(g)[..|"/calendar/"|] == "/calendar/";
  }
}
