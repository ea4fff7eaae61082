/**
 * The deadline table of `calendar_server.py` (class `DeadlineDatabase`):
 * the bulk import from a tab-separated file and the two read queries.
 *
 * The SQLite table is a sequence of rows in rowid order. The table's
 * UNIQUE(module_code, assignment_code, academic_year) constraint is the
 * invariant `KeysUnique`, and `INSERT OR REPLACE` deletes the row holding the
 * same key before appending the new one.
 */
module Store {
  import opened Base
  import opened Text
  import opened Dates
  import opened ModuleGroups

  /** The default of the `academic_year` column, which the import never sets. */
  const DefaultAcademicYear: string := "2026"

  /** A row of `deadlines`; the surrogate id and the two timestamps are not modelled. */
  datatype Row = Row(
    moduleCode: string,
    group: string,
    assignmentCode: string,
    title: string,
    recommend: Option<string>,
    deadline: string,
    academicYear: string,
    active: bool)

  /** The columns of the UNIQUE constraint. */
  datatype Key = Key(moduleCode: string, assignmentCode: string, academicYear: string)

  function KeyOf(x: Row): Key
  {
    Key(x.moduleCode, x.assignmentCode, x.academicYear)
  }

  /** The UNIQUE constraint: no two rows share a key. */
  predicate KeysUnique(rows: seq<Row>)
  {
    forall i, j :: 0 <= i < |rows| && 0 <= j < |rows| && KeyOf(rows[i]) == KeyOf(rows[j]) ==> i == j
  }

  // ---------------------------------------------------------------------------
  // INSERT OR REPLACE
  // ---------------------------------------------------------------------------

  /** The rows whose key is not `k`, in their order. */
  function WithoutKey(rows: seq<Row>, k: Key): (r: seq<Row>)
    ensures forall x :: x in r <==> x in rows && KeyOf(x) != k
  {
    if rows == [] then []
    else (if KeyOf(rows[0]) == k then [] else [rows[0]]) + WithoutKey(rows[1..], k)
  }

  lemma {:induction false} WithoutKeyUnique(rows: seq<Row>, k: Key)
    requires KeysUnique(rows)
    ensures KeysUnique(WithoutKey(rows, k))
  {
    if rows != [] {
      var tail := rows[1..];
      assert KeysUnique(tail) by {
        forall i, j | 0 <= i < |tail| && 0 <= j < |tail| && KeyOf(tail[i]) == KeyOf(tail[j])
          ensures i == j
        {
          assert tail[i] == rows[i + 1] && tail[j] == rows[j + 1];
        }
      }
      WithoutKeyUnique(tail, k);
      var rest := WithoutKey(tail, k);
      if KeyOf(rows[0]) != k {
        var r := [rows[0]] + rest;
        forall m | 0 < m < |r| ensures KeyOf(r[m]) != KeyOf(rows[0]) {
          assert r[m] == rest[m - 1] && r[m] in tail;
          var t :| 0 <= t < |tail| && tail[t] == r[m];
          assert rows[t + 1] == r[m];
        }
      }
    }
  }

  /** The table after `INSERT OR REPLACE` of row `x`. */
  function Upserted(rows: seq<Row>, x: Row): seq<Row>
  {
    WithoutKey(rows, KeyOf(x)) + [x]
  }

  /** `INSERT OR REPLACE` keeps the UNIQUE constraint. */
  lemma UpsertedUnique(rows: seq<Row>, x: Row)
    requires KeysUnique(rows)
    ensures KeysUnique(Upserted(rows, x))
  {
    WithoutKeyUnique(rows, KeyOf(x));
    var w := WithoutKey(rows, KeyOf(x));
    var r := w + [x];
    forall m | 0 <= m < |w| ensures KeyOf(r[m]) != KeyOf(x) {
      assert r[m] == w[m] && w[m] in w;
    }
  }

  // ---------------------------------------------------------------------------
  // One TSV line
  // ---------------------------------------------------------------------------

  /** The lines the import skips: short, of no group, or with a date it cannot parse. */
  predicate Rejected(line: seq<string>)
  {
    |line| < 4
    || Classify(line[0]).None?
    || ParseDmy(Strip(line[3])).None?
    || (Strip(line[2]) != "" && ParseDmy(Strip(line[2])).None?)
  }

  /** The row a TSV line (module, code, recommend date, deadline, ...) stores, if any. */
  function ParseLine(line: seq<string>): Option<Row>
  {
    if |line| < 4 then None
    else
      var moduleCode, code := Strip(line[0]), Strip(line[1]);
      match Classify(line[0])
      case None => None
      case Some(group) =>
        match ParseDmy(Strip(line[3]))
        case None => None
        case Some(deadline) =>
          if Strip(line[2]) == "" then
            Some(Row(moduleCode, group, code, moduleCode + " " + code, None,
                     IsoFormat(deadline), DefaultAcademicYear, true))
          else
            match ParseDmy(Strip(line[2]))
            case None => None
            case Some(recommend) =>
              Some(Row(moduleCode, group, code, moduleCode + " " + code, Some(IsoFormat(recommend)),
                       IsoFormat(deadline), DefaultAcademicYear, true))
  }

  /** A line is stored exactly when it is not one of the rejected kinds. */
  lemma ParseLineRejects(line: seq<string>)
    ensures ParseLine(line).None? <==> Rejected(line)
  {
  }

  /** Text in the shape `date.isoformat()` writes. */
  predicate IsIsoText(s: string)
  {
    ParseIso(s).Some? && IsoFormat(ParseIso(s).value) == s
  }

  /** The shape of every row the import writes. */
  predicate StoredShape(x: Row)
  {
    && IsStripped(x.moduleCode) && IsStripped(x.assignmentCode)
    && x.title == x.moduleCode + " " + x.assignmentCode
    && x.group in Keys && StartsWith(Upper(x.moduleCode), x.group)
    && IsIsoText(x.deadline)
    && (x.recommend.Some? ==> IsIsoText(x.recommend.value))
    && x.academicYear == DefaultAcademicYear
    && x.active
  }

  /** The columns a stored line's row is made of. */
  lemma ParseLineFields(line: seq<string>, x: Row)
    requires ParseLine(line) == Some(x)
    ensures |line| >= 4 && Classify(line[0]) == Some(x.group)
    ensures x.moduleCode == Strip(line[0]) && x.assignmentCode == Strip(line[1])
    ensures x.title == x.moduleCode + " " + x.assignmentCode
    ensures x.academicYear == DefaultAcademicYear && x.active
    ensures ParseDmy(Strip(line[3])).Some? && x.deadline == IsoFormat(ParseDmy(Strip(line[3])).value)
    ensures x.recommend.None? <==> Strip(line[2]) == ""
    ensures x.recommend.Some? ==>
              ParseDmy(Strip(line[2])).Some? && x.recommend.value == IsoFormat(ParseDmy(Strip(line[2])).value)
  {
  }

  /**
   * What a stored line holds: the stripped codes, their title, the group the
   * module classifies into, the deadline as ISO text that reads back as the
   * DD/MM/YYYY date of the line, and a recommend date exactly when that
   * column is not blank.
   */
  lemma ParseLineShape(line: seq<string>, x: Row)
    requires ParseLine(line) == Some(x)
    ensures StoredShape(x)
    ensures x.moduleCode == Strip(line[0]) && x.assignmentCode == Strip(line[1])
    ensures Classify(line[0]) == Some(x.group)
    ensures ParseIso(x.deadline) == ParseDmy(Strip(line[3]))
    ensures x.recommend.None? <==> Strip(line[2]) == ""
    ensures x.recommend.Some? ==> ParseIso(x.recommend.value) == ParseDmy(Strip(line[2]))
  {
    ParseLineFields(line, x);
    ClassifySpec(line[0], x.group);
    IsoRoundTrip(ParseDmy(Strip(line[3])).value);
    if x.recommend.Some? {
      IsoRoundTrip(ParseDmy(Strip(line[2])).value);
    }
  }

  // ---------------------------------------------------------------------------
  // The whole import
  // ---------------------------------------------------------------------------

  /** Each line of the file, parsed. */
  function ParseAll(file: seq<seq<string>>): (r: seq<Option<Row>>)
    ensures |r| == |file| && forall i :: 0 <= i < |file| ==> r[i] == ParseLine(file[i])
  {
    seq(|file|, i requires 0 <= i < |file| => ParseLine(file[i]))
  }

  lemma ParseAllSnoc(file: seq<seq<string>>, i: int)
    requires 0 <= i < |file|
    ensures ParseAll(file[..i + 1]) == ParseAll(file[..i]) + [ParseLine(file[i])]
  {
  }

  /** The table after it is cleared and each parsed row is upserted in turn. */
  function Accumulate(parsed: seq<Option<Row>>): seq<Row>
  {
    if parsed == [] then []
    else
      var before := Accumulate(parsed[..|parsed| - 1]);
      match parsed[|parsed| - 1]
      case None => before
      case Some(x) => Upserted(before, x)
  }

  lemma AccumulateSnoc(parsed: seq<Option<Row>>, x: Option<Row>)
    ensures Accumulate(parsed + [x]) == if x.Some? then Upserted(Accumulate(parsed), x.value) else Accumulate(parsed)
  {
    assert (parsed + [x])[..|parsed|] == parsed;
  }

  /** The table after importing `file`. */
  function ImportRows(file: seq<seq<string>>): seq<Row>
  {
    Accumulate(ParseAll(file))
  }

  /** A rejected line leaves the imported table as it was. */
  lemma ImportSkipsRejected(file: seq<seq<string>>, line: seq<string>)
    requires Rejected(line)
    ensures ImportRows(file + [line]) == ImportRows(file)
  {
    ParseLineRejects(line);
    var p := ParseAll(file + [line]);
    assert p[..|file|] == ParseAll(file);
  }

  lemma {:induction false} AccumulateUnique(parsed: seq<Option<Row>>)
    ensures KeysUnique(Accumulate(parsed))
  {
    if parsed != [] {
      var init := parsed[..|parsed| - 1];
      AccumulateUnique(init);
      if parsed[|parsed| - 1].Some? {
        UpsertedUnique(Accumulate(init), parsed[|parsed| - 1].value);
      }
    }
  }

  /** The imported table satisfies the UNIQUE constraint. */
  lemma ImportKeysUnique(file: seq<seq<string>>)
    ensures KeysUnique(ImportRows(file))
  {
    AccumulateUnique(ParseAll(file));
  }

  predicate HasKey(p: Option<Row>, k: Key)
  {
    p.Some? && KeyOf(p.value) == k
  }

  /** Line `line` stores a row with key `k`. */
  predicate StoresKey(line: seq<string>, k: Key)
  {
    HasKey(ParseLine(line), k)
  }

  /** The last parsed row with key `k`. */
  function LastWithKey(parsed: seq<Option<Row>>, k: Key): Option<Row>
  {
    if parsed == [] then None
    else if HasKey(parsed[|parsed| - 1], k) then parsed[|parsed| - 1]
    else LastWithKey(parsed[..|parsed| - 1], k)
  }

  /** Entry `i` has key `k` and no later entry does. */
  predicate LastHolding(parsed: seq<Option<Row>>, k: Key, i: int)
  {
    0 <= i < |parsed| && HasKey(parsed[i], k) && forall j :: i < j < |parsed| ==> !HasKey(parsed[j], k)
  }

  lemma {:induction false} LastWithKeySpec(parsed: seq<Option<Row>>, k: Key)
    ensures LastWithKey(parsed, k).Some? ==>
              exists i :: LastHolding(parsed, k, i) && parsed[i] == LastWithKey(parsed, k)
    ensures LastWithKey(parsed, k).None? <==> forall j :: 0 <= j < |parsed| ==> !HasKey(parsed[j], k)
  {
    if parsed != [] {
      var n := |parsed| - 1;
      var init := parsed[..n];
      if HasKey(parsed[n], k) {
        assert LastHolding(parsed, k, n);
      } else {
        LastWithKeySpec(init, k);
        assert forall j :: 0 <= j < n ==> init[j] == parsed[j];
        if LastWithKey(init, k).Some? {
          var i :| LastHolding(init, k, i) && init[i] == LastWithKey(init, k);
          assert LastHolding(parsed, k, i);
        }
      }
    }
  }

  lemma {:induction false} AccumulateHoldsLast(parsed: seq<Option<Row>>, k: Key, x: Row)
    ensures (x in Accumulate(parsed) && KeyOf(x) == k) <==> LastWithKey(parsed, k) == Some(x)
  {
    if parsed != [] {
      AccumulateHoldsLast(parsed[..|parsed| - 1], k, x);
    }
  }

  /** Line `i` of `file` stores key `k` and no later line does. */
  predicate LastStoringLine(file: seq<seq<string>>, k: Key, i: int)
  {
    0 <= i < |file| && StoresKey(file[i], k) && forall j :: i < j < |file| ==> !StoresKey(file[j], k)
  }

  lemma ImportHoldsLastOnly(file: seq<seq<string>>, k: Key, x: Row)
    requires x in ImportRows(file) && KeyOf(x) == k
    ensures exists i :: LastStoringLine(file, k, i) && ParseLine(file[i]) == Some(x)
  {
    var p := ParseAll(file);
    AccumulateHoldsLast(p, k, x);
    LastWithKeySpec(p, k);
    var i :| LastHolding(p, k, i) && p[i] == LastWithKey(p, k);
    forall j | i < j < |file| ensures !StoresKey(file[j], k) {
      assert p[j] == ParseLine(file[j]);
    }
    assert LastStoringLine(file, k, i) && ParseLine(file[i]) == Some(x);
  }

  lemma ImportHoldsLastIf(file: seq<seq<string>>, k: Key, x: Row, i: int)
    requires LastStoringLine(file, k, i) && ParseLine(file[i]) == Some(x)
    ensures x in ImportRows(file) && KeyOf(x) == k
  {
    var p := ParseAll(file);
    AccumulateHoldsLast(p, k, x);
    LastWithKeySpec(p, k);
    assert HasKey(p[i], k);
    var i' :| LastHolding(p, k, i') && p[i'] == LastWithKey(p, k);
    assert p[i'] == ParseLine(file[i']) && StoresKey(file[i'], k);
    assert i' == i;
  }

  /**
   * Last line wins: after an import, the table holds row `x` for key `k`
   * exactly when `x` is what the last line of the file storing key `k`
   * parses to; no row has key `k` when no line stores it.
   */
  lemma ImportHoldsLast(file: seq<seq<string>>, k: Key, x: Row)
    ensures (x in ImportRows(file) && KeyOf(x) == k) <==>
            exists i :: LastStoringLine(file, k, i) && ParseLine(file[i]) == Some(x)
  {
    if x in ImportRows(file) && KeyOf(x) == k {
      ImportHoldsLastOnly(file, k, x);
    }
    if exists i :: LastStoringLine(file, k, i) && ParseLine(file[i]) == Some(x) {
      var i :| LastStoringLine(file, k, i) && ParseLine(file[i]) == Some(x);
      ImportHoldsLastIf(file, k, x, i);
    }
  }

  /** The import replaces the table: every row comes from a line of the file. */
  lemma ImportRowsDerived(file: seq<seq<string>>, x: Row)
    requires x in ImportRows(file)
    ensures exists i :: 0 <= i < |file| && ParseLine(file[i]) == Some(x)
  {
    ImportHoldsLastOnly(file, KeyOf(x), x);
  }

  /** Every imported row has the stored shape. */
  lemma ImportShape(file: seq<seq<string>>, x: Row)
    requires x in ImportRows(file)
    ensures StoredShape(x)
  {
    ImportRowsDerived(file, x);
    var i :| 0 <= i < |file| && ParseLine(file[i]) == Some(x);
    ParseLineShape(file[i], x);
  }

  // ---------------------------------------------------------------------------
  // The table
  // ---------------------------------------------------------------------------

  class DeadlineTable {
    var rows: seq<Row>

    ghost predicate Valid()
      reads this
    {
      KeysUnique(rows)
    }

    /** Opens a table that already holds `existing` (SQLite keeps it UNIQUE). */
    constructor (existing: seq<Row>)
      requires KeysUnique(existing)
      ensures Valid() && rows == existing
    {
      rows := existing;
    }

    /** `INSERT OR REPLACE INTO deadlines ...` */
    method InsertOrReplace(x: Row)
      requires Valid()
      modifies this
      ensures Valid() && rows == Upserted(old(rows), x)
    {
      UpsertedUnique(rows, x);
      rows := Upserted(rows, x);
    }

    /** `import_from_tsv`, with the file given as its rows of tab-separated fields. */
    method ImportFromTsv(file: seq<seq<string>>)
      modifies this
      ensures Valid() && rows == ImportRows(file)
    {
      rows := [];
      assert file[..0] == [];
      var i := 0;
      while i < |file|
        invariant 0 <= i <= |file|
        invariant Valid() && rows == Accumulate(ParseAll(file[..i]))
      {
        ImportLine(file, i);
        i := i + 1;
      }
      assert file[..|file|] == file;
    }

    /** One pass of the import loop: line `i` is parsed and, when accepted, upserted. */
    method ImportLine(file: seq<seq<string>>, i: int)
      requires 0 <= i < |file|
      requires Valid() && rows == Accumulate(ParseAll(file[..i]))
      modifies this
      ensures Valid() && rows == Accumulate(ParseAll(file[..i + 1]))
    {
      var x := ParseTsvLine(file[i]);
      ParseAllSnoc(file, i);
      AccumulateSnoc(ParseAll(file[..i]), x);
      if x.Some? {
        InsertOrReplace(x.value);
      }
    }
  }

  /** The body of the import loop for one line: the row to upsert, or `None` to skip it. */
  method ParseTsvLine(line: seq<string>) returns (x: Option<Row>)
    ensures x == ParseLine(line)
  {
    if |line| < 4 {
      return None;
    }
    var moduleText, codeText, recommendText, deadlineText := line[0], line[1], line[2], line[3];
    var group := FindModuleGroup(moduleText);
    if group.None? {
      return None;
    }
    var deadline := ParseDmy(Strip(deadlineText));
    if deadline.None? {
      return None;
    }
    var recommend: Option<string> := None;
    if Strip(recommendText) != "" {
      var date := ParseDmy(Strip(recommendText));
      if date.None? {
        return None;
      }
      recommend := Some(IsoFormat(date.value));
    }
    var moduleCode, code := Strip(moduleText), Strip(codeText);
    x := Some(Row(moduleCode, group.value, code, moduleCode + " " + code,
                  recommend, IsoFormat(deadline.value), DefaultAcademicYear, true));
  }

  // ---------------------------------------------------------------------------
  // SELECT ... WHERE ... ORDER BY
  // ---------------------------------------------------------------------------

  /** Python truthiness of the optional group argument. */
  predicate Truthy(group: Option<string>)
  {
    group.Some? && group.value != ""
  }

  /** The WHERE clause of `get_deadlines_by_group`. */
  predicate Selected(x: Row, group: Option<string>)
  {
    x.active && (Truthy(group) ==> x.group == Upper(group.value))
  }

  function FilterRows(rows: seq<Row>, group: Option<string>): (r: seq<Row>)
    ensures forall x :: multiset(r)[x] == if Selected(x, group) then multiset(rows)[x] else 0
  {
    if rows == [] then []
    else
      assert rows == [rows[0]] + rows[1..];
      (if Selected(rows[0], group) then [rows[0]] else []) + FilterRows(rows[1..], group)
  }

  /** The ORDER BY columns: group first only when no group is asked for. */
  function SortKey(x: Row, byGroup: bool): seq<string>
  {
    if byGroup then [x.group, x.deadline, x.moduleCode] else [x.deadline, x.moduleCode]
  }

  /** Lexicographic order on column lists, each column in code-point order. */
  predicate KeyLe(a: seq<string>, b: seq<string>)
  {
    a == [] || (b != [] && (StrLt(a[0], b[0]) || (a[0] == b[0] && KeyLe(a[1..], b[1..]))))
  }

  lemma {:induction false} KeyLeTotal(a: seq<string>, b: seq<string>)
    ensures KeyLe(a, b) || KeyLe(b, a)
  {
    if a != [] && b != [] {
      StrLtTrichotomy(a[0], b[0]);
      if a[0] == b[0] {
        KeyLeTotal(a[1..], b[1..]);
      }
    }
  }

  lemma {:induction false} KeyLeTransitive(a: seq<string>, b: seq<string>, c: seq<string>)
    requires KeyLe(a, b) && KeyLe(b, c)
    ensures KeyLe(a, c)
  {
    if a != [] {
      if StrLt(a[0], b[0]) && StrLt(b[0], c[0]) {
        StrLtTransitive(a[0], b[0], c[0]);
      } else if a[0] == b[0] && b[0] == c[0] {
        KeyLeTransitive(a[1..], b[1..], c[1..]);
      }
    }
  }

  predicate RowLe(x: Row, y: Row, byGroup: bool)
  {
    KeyLe(SortKey(x, byGroup), SortKey(y, byGroup))
  }

  predicate SortedBy(s: seq<Row>, byGroup: bool)
  {
    forall i, j :: 0 <= i < j < |s| ==> RowLe(s[i], s[j], byGroup)
  }

  lemma LeadsSorted(x: Row, s: seq<Row>, byGroup: bool)
    requires SortedBy(s, byGroup)
    requires forall k :: 0 <= k < |s| ==> RowLe(x, s[k], byGroup)
    ensures SortedBy([x] + s, byGroup)
  {
    var r := [x] + s;
    forall i, j | 0 <= i < j < |r| ensures RowLe(r[i], r[j], byGroup) {
      if i > 0 {
        assert r[i] == s[i - 1] && r[j] == s[j - 1];
      } else {
        assert r[j] == s[j - 1];
      }
    }
  }

  /** A row that sorts before the head of a sorted sequence sorts before all of it. */
  lemma BelowHead(x: Row, s: seq<Row>, byGroup: bool)
    requires SortedBy(s, byGroup) && s != [] && RowLe(x, s[0], byGroup)
    ensures forall k :: 0 <= k < |s| ==> RowLe(x, s[k], byGroup)
  {
    forall k | 0 < k < |s| ensures RowLe(x, s[k], byGroup) {
      KeyLeTransitive(SortKey(x, byGroup), SortKey(s[0], byGroup), SortKey(s[k], byGroup));
    }
  }

  /** The head of a sorted sequence sorts before the rest with a later row inserted. */
  lemma HeadBelowInserted(x: Row, s: seq<Row>, t: seq<Row>, byGroup: bool)
    requires SortedBy(s, byGroup) && s != [] && !RowLe(x, s[0], byGroup)
    requires multiset(t) == multiset(s[1..]) + multiset{x}
    ensures forall k :: 0 <= k < |t| ==> RowLe(s[0], t[k], byGroup)
  {
    KeyLeTotal(SortKey(x, byGroup), SortKey(s[0], byGroup));
    forall k | 0 <= k < |t| ensures RowLe(s[0], t[k], byGroup) {
      assert t[k] in multiset(t);
      if t[k] != x {
        assert t[k] in multiset(s[1..]);
        var m :| 0 <= m < |s[1..]| && s[1..][m] == t[k];
        assert s[m + 1] == t[k];
      }
    }
  }

  /** Inserts `x` after the rows that sort before it. */
  function InsertSorted(x: Row, s: seq<Row>, byGroup: bool): (r: seq<Row>)
    requires SortedBy(s, byGroup)
    ensures SortedBy(r, byGroup) && multiset(r) == multiset(s) + multiset{x}
  {
    if s == [] then [x]
    else if RowLe(x, s[0], byGroup) then
      BelowHead(x, s, byGroup);
      LeadsSorted(x, s, byGroup);
      [x] + s
    else
      assert s == [s[0]] + s[1..];
      var t := InsertSorted(x, s[1..], byGroup);
      HeadBelowInserted(x, s, t, byGroup);
      LeadsSorted(s[0], t, byGroup);
      [s[0]] + t
  }

  /** Insertion sort on the ORDER BY columns. */
  function SortRows(s: seq<Row>, byGroup: bool): (r: seq<Row>)
    ensures SortedBy(r, byGroup) && multiset(r) == multiset(s)
  {
    if s == [] then []
    else
      assert s == [s[0]] + s[1..];
      InsertSorted(s[0], SortRows(s[1..], byGroup), byGroup)
  }

  /**
   * `get_deadlines_by_group`: the active rows of the asked group (compared
   * upper-cased), each once, sorted by (deadline_date, module_code); without
   * a group (None or the empty string), every active row sorted by
   * (module_group, deadline_date, module_code).
   */
  function Select(rows: seq<Row>, group: Option<string>): (r: seq<Row>)
    ensures SortedBy(r, !Truthy(group))
    ensures forall x :: multiset(r)[x] == if Selected(x, group) then multiset(rows)[x] else 0
  {
    SortRows(FilterRows(rows, group), !Truthy(group))
  }

  // ---------------------------------------------------------------------------
  // SELECT DISTINCT module_group ... ORDER BY module_group
  // ---------------------------------------------------------------------------

  predicate StrictlyAscending(s: seq<string>)
  {
    forall i, j :: 0 <= i < j < |s| ==> StrLt(s[i], s[j])
  }

  function InsertGroup(g: string, s: seq<string>): (r: seq<string>)
    requires StrictlyAscending(s)
    ensures StrictlyAscending(r)
    ensures forall h :: h in r <==> h in s || h == g
  {
    if s == [] then [g]
    else if g == s[0] then s
    else if StrLt(g, s[0]) then
      assert forall k :: 0 < k < |s| ==> StrLt(g, s[k]) by {
        forall k | 0 < k < |s| ensures StrLt(g, s[k]) {
          StrLtTransitive(g, s[0], s[k]);
        }
      }
      [g] + s
    else
      StrLtTrichotomy(g, s[0]);
      var t := InsertGroup(g, s[1..]);
      assert forall k :: 0 <= k < |t| ==> StrLt(s[0], t[k]) by {
        forall k | 0 <= k < |t| ensures StrLt(s[0], t[k]) {
          assert t[k] in t;
          if t[k] != g {
            var m :| 0 <= m < |s[1..]| && s[1..][m] == t[k];
            assert s[m + 1] == t[k];
          }
        }
      }
      [s[0]] + t
  }

  /** `get_module_groups`: the groups of the active rows, each once, in ascending order. */
  function ModuleGroupList(rows: seq<Row>): (r: seq<string>)
    ensures StrictlyAscending(r)
    ensures forall g :: g in r <==> exists x :: x in rows && x.active && x.group == g
  {
    if rows == [] then []
    else
      assert forall x :: x in rows <==> x == rows[0] || x in rows[1..];
      var rest := ModuleGroupList(rows[1..]);
      if rows[0].active then InsertGroup(rows[0].group, rest) else rest
  }
}
