/** Employees and their day-off requests: the grouping of parsed CSV rows
    into employees (src/App.jsx:103-113), the lookup of an employee's
    request for a date (src/App.jsx:141, 147), the priority toggle of the
    settings form (src/App.jsx:290) and the name lookup used by the export
    (src/App.jsx:203). */
module Roster {
  import opened Common
  import opened Text
  import opened Calendar

  datatype Request = Request(date: string, priority: bool)

  datatype Employee = Employee(id: string, name: string, requests: seq<Request>)

  /** One parsed CSV record; a column missing from the record is `None`
      (JavaScript's `undefined`). */
  datatype Row = Row(id: Option<string>, name: Option<string>, date: Option<string>, priority: Option<string>)

  /** No two employees share an id. */
  predicate UniqueIds(emps: seq<Employee>) {
    forall a, b :: 0 <= a < b < |emps| ==> emps[a].id != emps[b].id
  }

  // ---------------------------------------------------------------------
  // Rows
  // ---------------------------------------------------------------------

  /** `row.X?.trim()` is truthy: the column is there and is not blank. */
  predicate Present(v: Option<string>) {
    v.Some? && Trim(v.value) != ""
  }

  /** The row passes the test of src/App.jsx:107. */
  predicate IsValidRow(r: Row) {
    Present(r.id) && Present(r.name) && Present(r.date) && IsDateKey(Trim(r.date.value))
  }

  function RowId(r: Row): string
    requires IsValidRow(r)
  {
    Trim(r.id.value)
  }

  function RowName(r: Row): string
    requires IsValidRow(r)
  {
    Trim(r.name.value)
  }

  /** `String(row.Priority).toUpperCase() === 'TRUE'`; a missing column is
      the string "undefined", which is not "TRUE". The value is not trimmed. */
  predicate IsPriorityValue(p: Option<string>) {
    p.Some? && ToUpper(p.value) == "TRUE"
  }

  function RowRequest(r: Row): Request
    requires IsValidRow(r)
  {
    Request(Trim(r.date.value), IsPriorityValue(r.priority))
  }

  // ---------------------------------------------------------------------
  // What grouping should produce, stated row by row
  // ---------------------------------------------------------------------

  /** Ids of the valid rows, each once, in the order they first appear. */
  function FirstSeenIds(rows: seq<Row>): seq<string> {
    if rows == [] then []
    else
      var ids := FirstSeenIds(rows[..|rows| - 1]);
      var r := rows[|rows| - 1];
      if IsValidRow(r) && RowId(r) !in ids then ids + [RowId(r)] else ids
  }

  /** The name on the first valid row with this id. */
  function FirstName(rows: seq<Row>, id: string): Option<string> {
    if rows == [] then None
    else
      var n := FirstName(rows[..|rows| - 1], id);
      var r := rows[|rows| - 1];
      if n.Some? then n
      else if IsValidRow(r) && RowId(r) == id then Some(RowName(r))
      else None
  }

  /** The requests of the valid rows with this id, in row order. */
  function RequestsOf(rows: seq<Row>, id: string): seq<Request> {
    if rows == [] then []
    else
      var r := rows[|rows| - 1];
      RequestsOf(rows[..|rows| - 1], id)
      + if IsValidRow(r) && RowId(r) == id then [RowRequest(r)] else []
  }

  function NameOf(rows: seq<Row>, id: string): string {
    match FirstName(rows, id)
    case Some(n) => n
    case None => ""
  }

  /** The employees grouping should produce. */
  function Grouped(rows: seq<Row>): seq<Employee> {
    var ids := FirstSeenIds(rows);
    seq(|ids|, j requires 0 <= j < |ids| => Employee(ids[j], NameOf(rows, ids[j]), RequestsOf(rows, ids[j])))
  }

  // ---------------------------------------------------------------------
  // The grouping loop
  // ---------------------------------------------------------------------

  /** The loop of src/App.jsx:103-113: skip invalid rows, create an employee
      the first time an id is seen, append the request of every valid row.
      `byId` is the dictionary `parsedEmployees` and `order` the order its
      keys were created in. */
  method GroupRows(rows: seq<Row>) returns (employees: seq<Employee>)
    ensures employees == Grouped(rows)
  {
    var byId: map<string, Employee> := map[];
    var order: seq<string> := [];
    for k := 0 to |rows|
      invariant order == FirstSeenIds(rows[..k])
      invariant forall x :: x in byId <==> x in order
      invariant forall x :: x in byId ==>
        byId[x] == Employee(x, NameOf(rows[..k], x), RequestsOf(rows[..k], x))
    {
      var row := rows[k];
      ghost var before, seen := byId, order;
      if IsValidRow(row) {
        var id := RowId(row);
        if id !in byId {
          byId := byId[id := Employee(id, RowName(row), [])];
          order := order + [id];
        }
        byId := byId[id := byId[id].(requests := byId[id].requests + [RowRequest(row)])];
      }
      GroupStepIds(rows, k);
      forall x | x in byId
        ensures byId[x] == Employee(x, NameOf(rows[..k + 1], x), RequestsOf(rows[..k + 1], x))
      {
        GroupStep(rows, k, x);
        FirstNameFound(rows[..k], x);
        assert x in before <==> x in seen;
        if x in before {
          assert byId[x] == (if IsValidRow(row) && RowId(row) == x
            then before[x].(requests := before[x].requests + [RowRequest(row)]) else before[x]);
        }
      }
    }
    assert rows[..|rows|] == rows;
    employees := seq(|order|, j requires 0 <= j < |order| => byId[order[j]]);
  }

  /** How one more row extends the ids seen so far. */
  lemma GroupStepIds(rows: seq<Row>, k: int)
    requires 0 <= k < |rows|
    ensures FirstSeenIds(rows[..k + 1]) ==
      var ids := FirstSeenIds(rows[..k]);
      if IsValidRow(rows[k]) && RowId(rows[k]) !in ids then ids + [RowId(rows[k])] else ids
  {
    assert rows[..k + 1][..k] == rows[..k];
  }

  /** How one more row extends the name and the requests of an id. */
  lemma GroupStep(rows: seq<Row>, k: int, x: string)
    requires 0 <= k < |rows|
    ensures RequestsOf(rows[..k + 1], x) ==
      RequestsOf(rows[..k], x) + if IsValidRow(rows[k]) && RowId(rows[k]) == x then [RowRequest(rows[k])] else []
    ensures FirstName(rows[..k + 1], x) ==
      if FirstName(rows[..k], x).Some? then FirstName(rows[..k], x)
      else if IsValidRow(rows[k]) && RowId(rows[k]) == x then Some(RowName(rows[k]))
      else None
  {
    assert rows[..k + 1][..k] == rows[..k];
  }

  // ---------------------------------------------------------------------
  // What grouping guarantees
  // ---------------------------------------------------------------------

  /** An id has a first name exactly when it has been seen, and an id not
      seen has no requests. */
  lemma {:induction false} FirstNameFound(rows: seq<Row>, id: string)
    ensures FirstName(rows, id).Some? <==> id in FirstSeenIds(rows)
    ensures id !in FirstSeenIds(rows) ==> RequestsOf(rows, id) == []
  {
    if rows != [] {
      FirstNameFound(rows[..|rows| - 1], id);
    }
  }

  /** The row is valid and carries `id`. */
  predicate Carries(r: Row, id: string) {
    IsValidRow(r) && RowId(r) == id
  }

  /** Some valid row carries the id. */
  predicate HasValidRow(rows: seq<Row>, id: string) {
    exists k :: 0 <= k < |rows| && Carries(rows[k], id)
  }

  /** An id is seen exactly when some valid row carries it. */
  lemma {:induction false} FirstSeenMembership(rows: seq<Row>, id: string)
    ensures id in FirstSeenIds(rows) <==> HasValidRow(rows, id)
  {
    if rows != [] {
      var init := rows[..|rows| - 1];
      FirstSeenMembership(init, id);
      if HasValidRow(rows, id) {
        var k :| 0 <= k < |rows| && Carries(rows[k], id);
        if k < |rows| - 1 {
          assert init[k] == rows[k];
        }
      }
      if HasValidRow(init, id) {
        var k :| 0 <= k < |init| && Carries(init[k], id);
        assert init[k] == rows[k];
      }
    }
  }

  lemma {:induction false} FirstSeenNoDup(rows: seq<Row>)
    ensures NoDup(FirstSeenIds(rows))
  {
    if rows != [] {
      FirstSeenNoDup(rows[..|rows| - 1]);
    }
  }

  /** The ids of a list of employees, in order. */
  function Ids(emps: seq<Employee>): (ids: seq<string>)
    ensures |ids| == |emps| && forall j :: 0 <= j < |emps| ==> ids[j] == emps[j].id
  {
    seq(|emps|, j requires 0 <= j < |emps| => emps[j].id)
  }

  /** Grouping gives every id one employee, and exactly the ids of the
      valid rows have an employee. */
  lemma GroupedIds(rows: seq<Row>)
    ensures UniqueIds(Grouped(rows))
    ensures forall id :: id in Ids(Grouped(rows)) <==> HasValidRow(rows, id)
  {
    FirstSeenNoDup(rows);
    assert Ids(Grouped(rows)) == FirstSeenIds(rows);
    forall id ensures id in FirstSeenIds(rows) <==> HasValidRow(rows, id) {
      FirstSeenMembership(rows, id);
    }
  }

  /** Every row lacks the ID, the Name or the Date column: what the
      parsed rows of a file whose header misses that column look like. */
  predicate LacksColumn(rows: seq<Row>) {
    || (forall k :: 0 <= k < |rows| ==> rows[k].id.None?)
    || (forall k :: 0 <= k < |rows| ==> rows[k].name.None?)
    || (forall k :: 0 <= k < |rows| ==> rows[k].date.None?)
  }

  /** Rows none of which is valid give no ids. */
  lemma {:induction false} NoValidRowNoIds(rows: seq<Row>)
    requires forall k :: 0 <= k < |rows| ==> !IsValidRow(rows[k])
    ensures FirstSeenIds(rows) == []
  {
    if rows != [] {
      var init := rows[..|rows| - 1];
      assert forall k :: 0 <= k < |init| ==> init[k] == rows[k];
      NoValidRowNoIds(init);
    }
  }

  /** Without one of the three columns no row is valid and the roster is
      empty, the same roster the header check leaves. */
  lemma MissingColumnEmpty(rows: seq<Row>)
    requires LacksColumn(rows)
    ensures Grouped(rows) == []
  {
    NoValidRowNoIds(rows);
  }

  /** The row is valid and files request `q` under `id`. */
  predicate Files(r: Row, id: string, q: Request) {
    IsValidRow(r) && RowId(r) == id && RowRequest(r) == q
  }

  /** A request is filed under an id exactly when a valid row with that id
      carries it. */
  lemma {:induction false} RequestsOfMembership(rows: seq<Row>, id: string, q: Request)
    ensures q in RequestsOf(rows, id) <==> exists k :: 0 <= k < |rows| && Files(rows[k], id, q)
  {
    if rows != [] {
      var init := rows[..|rows| - 1];
      RequestsOfMembership(init, id, q);
      RequestsOfLast(rows, id, q);
      FilingRowSplit(rows, init, id, q);
    }
  }

  /** The last row adds its own request, if it files one, to the earlier
      rows' requests. */
  lemma RequestsOfLast(rows: seq<Row>, id: string, q: Request)
    requires rows != []
    ensures q in RequestsOf(rows, id) <==> q in RequestsOf(rows[..|rows| - 1], id) || Files(rows[|rows| - 1], id, q)
  {
  }

  /** Some row files `q` exactly when an earlier row or the last one does. */
  lemma FilingRowSplit(rows: seq<Row>, init: seq<Row>, id: string, q: Request)
    requires rows != [] && init == rows[..|rows| - 1]
    ensures (exists k :: 0 <= k < |rows| && Files(rows[k], id, q))
        <==> (exists k :: 0 <= k < |init| && Files(init[k], id, q)) || Files(rows[|rows| - 1], id, q)
  {
    var filesQ := r => Files(r, id, q);
    SomeSplitLast(rows, init, filesQ);
    assert forall r :: filesQ(r) == Files(r, id, q);
  }

  /** Every employee of the grouping is named after its first valid row,
      and that name is not blank. */
  lemma GroupedNames(rows: seq<Row>)
    ensures forall j :: 0 <= j < |Grouped(rows)| ==>
      Some(Grouped(rows)[j].name) == FirstName(rows, Grouped(rows)[j].id) && Grouped(rows)[j].name != ""
  {
    var ids := FirstSeenIds(rows);
    forall j | 0 <= j < |ids|
      ensures Some(NameOf(rows, ids[j])) == FirstName(rows, ids[j]) && NameOf(rows, ids[j]) != ""
    {
      FirstNameFound(rows, ids[j]);
      FirstNameNotBlank(rows, ids[j]);
    }
  }

  lemma {:induction false} FirstNameNotBlank(rows: seq<Row>, id: string)
    ensures FirstName(rows, id).Some? ==> FirstName(rows, id).value != ""
  {
    if rows != [] {
      FirstNameNotBlank(rows[..|rows| - 1], id);
    }
  }

  // ---------------------------------------------------------------------
  // Requests for a date
  // ---------------------------------------------------------------------

  /** `rawRequests.find(r => r.date === date)`. */
  function FirstRequest(reqs: seq<Request>, date: string): (r: Option<Request>)
    ensures r.None? <==> forall q :: q in reqs ==> q.date != date
    ensures r.Some? ==> (r.value.date == date &&
      exists k :: 0 <= k < |reqs| && reqs[k] == r.value && forall j :: 0 <= j < k ==> reqs[j].date != date)
  {
    if reqs == [] then None
    else if reqs[0].date == date then Some(reqs[0])
    else
      var r := FirstRequest(reqs[1..], date);
      assert forall q :: q in reqs ==> q == reqs[0] || q in reqs[1..];
      if r.Some? then
        var k :| 0 <= k < |reqs[1..]| && reqs[1..][k] == r.value && forall j :: 0 <= j < k ==> reqs[1..][j].date != date;
        assert reqs[k + 1] == r.value && forall j :: 0 <= j < k + 1 ==> reqs[j].date != date;
        r
      else r
  }

  /** Once an employee has a request for a date, later requests for the same
      date change nothing: their priority flag is never read. */
  lemma {:induction false} LaterRequestsIgnored(reqs: seq<Request>, later: seq<Request>, date: string)
    requires FirstRequest(reqs, date).Some?
    ensures FirstRequest(reqs + later, date) == FirstRequest(reqs, date)
  {
    if reqs[0].date != date {
      assert (reqs + later)[1..] == reqs[1..] + later;
      LaterRequestsIgnored(reqs[1..], later, date);
    }
  }

  // ---------------------------------------------------------------------
  // Priority toggle and name lookup
  // ---------------------------------------------------------------------

  /** `prev.filter(x => x !== id)`. */
  function Without(ids: seq<string>, id: string): (r: seq<string>)
    ensures forall x :: x in r <==> x in ids && x != id
    ensures NoDup(ids) ==> NoDup(r)
    ensures |r| <= |ids|
  {
    if ids == [] then []
    else
      var rest := Without(ids[1..], id);
      assert forall x :: x in ids <==> x == ids[0] || x in ids[1..];
      assert NoDup(ids) ==> NoDup(ids[1..]) && ids[0] !in ids[1..];
      if ids[0] == id then rest else [ids[0]] + rest
  }

  /** `handlePriorityChange` (src/App.jsx:290): removes the id when it is
      there, appends it otherwise. */
  function TogglePriority(ids: seq<string>, id: string): (r: seq<string>)
    ensures id in r <==> id !in ids
    ensures forall x :: x != id ==> (x in r <==> x in ids)
    ensures NoDup(ids) ==> NoDup(r)
  {
    if id in ids then Without(ids, id) else ids + [id]
  }

  /** Toggling twice restores the membership of every id, and restores the
      list itself when the id was absent. */
  lemma ToggleTwice(ids: seq<string>, id: string)
    ensures forall x :: x in TogglePriority(TogglePriority(ids, id), id) <==> x in ids
    ensures id !in ids ==> TogglePriority(TogglePriority(ids, id), id) == ids
  {
    if id !in ids {
      WithoutAbsent(ids, id);
      WithoutLast(ids, id);
    }
  }

  lemma {:induction false} WithoutAbsent(ids: seq<string>, id: string)
    requires id !in ids
    ensures Without(ids, id) == ids
  {
    if ids != [] {
      WithoutAbsent(ids[1..], id);
    }
  }

  lemma {:induction false} WithoutLast(ids: seq<string>, id: string)
    requires id !in ids
    ensures Without(ids + [id], id) == Without(ids, id)
  {
    if ids != [] {
      assert (ids + [id])[1..] == ids[1..] + [id];
      WithoutLast(ids[1..], id);
    } else {
      assert Without([id], id) == Without([], id);
    }
  }

  /** `getName` (src/App.jsx:203): the name of the first employee with the
      id, or "不明" when there is none or the name is empty. */
  function GetName(emps: seq<Employee>, id: string): (name: string)
    ensures name != ""
    ensures (exists e :: e in emps && e.id == id && e.name != "" && name == e.name) || name == "不明"
    ensures FirstWithId(emps, id).None? ==> name == "不明"
    ensures FirstWithId(emps, id).Some? ==>
      name == if emps[FirstWithId(emps, id).value].name != "" then emps[FirstWithId(emps, id).value].name else "不明"
  {
    if emps == [] then "不明"
    else if emps[0].id == id then (if emps[0].name != "" then emps[0].name else "不明")
    else
      var n := GetName(emps[1..], id);
      assert forall e :: e in emps[1..] ==> e in emps;
      n
  }

  /** The position `employees.find` stops at: the first employee with the
      id, if any. */
  function FirstWithId(emps: seq<Employee>, id: string): (k: Option<nat>)
    ensures k.None? ==> forall j :: 0 <= j < |emps| ==> emps[j].id != id
    ensures k.Some? ==> k.value < |emps| && emps[k.value].id == id && forall j :: 0 <= j < k.value ==> emps[j].id != id
  {
    if emps == [] then None
    else if emps[0].id == id then Some(0)
    else
      var k := FirstWithId(emps[1..], id);
      if k.None? then None else Some(k.value + 1)
  }

  /** With unique ids, the name shown for an employee is that employee's
      own name unless it is empty. */
  lemma {:induction false} GetNameOfMember(emps: seq<Employee>, i: int)
    requires UniqueIds(emps) && 0 <= i < |emps|
    ensures GetName(emps, emps[i].id) == if emps[i].name != "" then emps[i].name else "不明"
  {
    if i > 0 {
      assert emps[0].id != emps[i].id;
      assert UniqueIds(emps[1..]);
      GetNameOfMember(emps[1..], i - 1);
    }
  }

  // ---------------------------------------------------------------------
  // Grouping as written: the dictionary is a plain object
  // ---------------------------------------------------------------------

  /** Names every plain JavaScript object inherits from `Object.prototype`.
      Looking one of them up in `parsedEmployees` finds the inherited
      member, which is truthy and has no `rawRequests`. */
  const InheritedNames: set<string> := {
    "constructor", "hasOwnProperty", "isPrototypeOf", "propertyIsEnumerable",
    "toLocaleString", "toString", "valueOf", "__proto__",
    "__defineGetter__", "__defineSetter__", "__lookupGetter__", "__lookupSetter__"
  }

  /** The id names a member every plain object inherits. */
  predicate Inherited(id: string) {
    id in InheritedNames
  }

  /** The exception caught at src/App.jsx:120. */
  datatype GroupError = ProcessingError

  /** `parsedEmployees` and the order its own keys were created in. */
  datatype Dictionary = Dictionary(byId: map<string, Employee>, order: seq<string>)

  ghost predicate Consistent(dict: Dictionary) {
    (forall x :: x in dict.byId <==> x in dict.order)
    && forall x :: x in dict.byId ==> !Inherited(x)
  }

  /** One pass of the loop body of src/App.jsx:104-112 as written: the
      truthiness test sees inherited members, and pushing onto the missing
      `rawRequests` of one throws. */
  function StepAsWritten(dict: Dictionary, row: Row): (r: Result<Dictionary, GroupError>)
    requires Consistent(dict)
    ensures r.Ok? ==> Consistent(r.value)
    ensures r.Err? <==> InheritedRow(row)
  {
    if !IsValidRow(row) then Ok(dict)
    else
      var id := RowId(row);
      if Inherited(id) then Err(ProcessingError)
      else
        var created := if id !in dict.byId
          then Dictionary(dict.byId[id := Employee(id, RowName(row), [])], dict.order + [id])
          else dict;
        var e := created.byId[id];
        Ok(created.(byId := created.byId[id := e.(requests := e.requests + [RowRequest(row)])]))
  }

  /** The loop over all rows as written; the first exception ends it. */
  function GroupStateAsWritten(rows: seq<Row>): (r: Result<Dictionary, GroupError>)
    ensures r.Ok? ==> Consistent(r.value)
  {
    if rows == [] then Ok(Dictionary(map[], []))
    else
      match GroupStateAsWritten(rows[..|rows| - 1])
      case Err(e) => Err(e)
      case Ok(dict) => StepAsWritten(dict, rows[|rows| - 1])
  }

  /** `Object.values(parsedEmployees)`, or the error that empties the
      employee list. */
  function GroupAsWritten(rows: seq<Row>): Result<seq<Employee>, GroupError> {
    match GroupStateAsWritten(rows)
    case Err(e) => Err(e)
    case Ok(dict) => Ok(seq(|dict.order|, j requires 0 <= j < |dict.order| => dict.byId[dict.order[j]]))
  }

  /** The row is valid and its id is an inherited name. */
  predicate InheritedRow(r: Row) {
    IsValidRow(r) && Inherited(RowId(r))
  }

  /** Some valid row carries an inherited name as its id: the last row or
      one before it. */
  predicate HasInheritedId(rows: seq<Row>) {
    rows != [] && (HasInheritedId(rows[..|rows| - 1]) || InheritedRow(rows[|rows| - 1]))
  }

  /** The dictionary holds, in order of first appearance, one employee per
      id of the valid rows, as `Grouped` describes it. */
  ghost predicate Describes(dict: Dictionary, rows: seq<Row>) {
    && dict.order == FirstSeenIds(rows)
    && forall x :: x in dict.byId ==> dict.byId[x] == Employee(x, NameOf(rows, x), RequestsOf(rows, x))
  }

  /** One row more keeps the dictionary described by the rows read. */
  lemma StepAsWrittenMeaning(rows: seq<Row>, before: Dictionary)
    requires rows != [] && Consistent(before) && Describes(before, rows[..|rows| - 1])
    ensures var r := StepAsWritten(before, rows[|rows| - 1]);
      r.Ok? ==> Describes(r.value, rows)
  {
    var k := |rows| - 1;
    var init := rows[..k];
    assert rows[..k + 1] == rows;
    var r := StepAsWritten(before, rows[k]);
    if r.Ok? {
      var dict := r.value;
      GroupStepIds(rows, k);
      forall x | x in dict.byId
        ensures dict.byId[x] == Employee(x, NameOf(rows, x), RequestsOf(rows, x))
      {
        GroupStep(rows, k, x);
        FirstNameFound(init, x);
      }
    }
  }

  /** The loop as written fails exactly when a valid row has an inherited
      name as its id, and otherwise builds the dictionary `Grouped`
      describes. */
  lemma {:induction false} GroupStateAsWrittenMeaning(rows: seq<Row>)
    ensures GroupStateAsWritten(rows).Err? <==> HasInheritedId(rows)
    ensures GroupStateAsWritten(rows).Ok? ==> Describes(GroupStateAsWritten(rows).value, rows)
  {
    if rows != [] {
      var init := rows[..|rows| - 1];
      GroupStateAsWrittenMeaning(init);
      if GroupStateAsWritten(init).Ok? {
        StepAsWrittenMeaning(rows, GroupStateAsWritten(init).value);
      }
    }
  }

  /** Whenever the loop as written succeeds it returns exactly `Grouped`,
      and it fails exactly on rows with an inherited id. */
  lemma GroupAsWrittenMeaning(rows: seq<Row>)
    ensures GroupAsWritten(rows).Err? <==> HasInheritedId(rows)
    ensures GroupAsWritten(rows).Ok? ==> GroupAsWritten(rows).value == Grouped(rows)
  {
    GroupStateAsWrittenMeaning(rows);
  }

  /** A row whose id, name and date have no whitespace at either end and
      whose date is a date key is valid and keeps them as they are. */
  lemma UnspacedRow(id: string, name: string, date: string, p: Option<string>)
    requires id != [] && !IsJsSpace(id[0]) && !IsJsSpace(id[|id| - 1])
    requires name != [] && !IsJsSpace(name[0]) && !IsJsSpace(name[|name| - 1])
    requires IsDateKey(date)
    ensures var row := Row(Some(id), Some(name), Some(date), p);
      IsValidRow(row) && RowId(row) == id && RowName(row) == name
      && RowRequest(row) == Request(date, IsPriorityValue(p))
  {
    TrimKeepsUnspaced(id);
    TrimKeepsUnspaced(name);
    assert '0' <= date[0] <= '9';
    TrimKeepsUnspaced(date);
  }

  lemma ExampleDateKey()
    ensures IsDateKey("2025-01-01")
  {
  }

  /** The one row of the example below is valid, with id "constructor". */
  lemma ConstructorRow(row: Row)
    requires row == Row(Some("constructor"), Some("A"), Some("2025-01-01"), None)
    ensures IsValidRow(row) && RowId(row) == "constructor" && Inherited(RowId(row))
    ensures RowName(row) == "A" && RowRequest(row) == Request("2025-01-01", false)
  {
    ExampleDateKey();
    UnspacedRow("constructor", "A", "2025-01-01", None);
  }

  /** A CSV whose only employee has the id "constructor": the loop as
      written throws and the program ends with no employees and an error,
      while the grouping the program evidently intends yields that
      employee. */
  lemma PrototypeIdRejected()
    ensures var rows := [Row(Some("constructor"), Some("A"), Some("2025-01-01"), None)];
      && GroupAsWritten(rows) == Err(ProcessingError)
      && Grouped(rows) == [Employee("constructor", "A", [Request("2025-01-01", false)])]
  {
    var row := Row(Some("constructor"), Some("A"), Some("2025-01-01"), None);
    var rows := [row];
    ConstructorRow(row);
    assert rows[0] == row;
    GroupAsWrittenMeaning(rows);
    assert rows[..0] == [];
    assert FirstSeenIds(rows) == ["constructor"];
    assert RequestsOf(rows, "constructor") == [Request("2025-01-01", false)];
    assert FirstName(rows, "constructor") == Some("A");
  }
}
