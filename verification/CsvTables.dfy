// Wide CSV tables accumulated row by row: every table equals the one rebuilt from its call log.
module CsvTables {
  import opened Options
  import opened TextSplit

  /** A recorded number; `None` is NaN, which also marks a missing value. */
  type Value = Option<real>

  type Row = seq<(string, Value)>

  /** One `record_row` call on a table. */
  datatype Call = Call(t: nat, row: Row)

  datatype WideTable = WideTable(columns: seq<string>, rows: seq<(nat, seq<Value>)>)

  // ---- the table of a log ----

  /** The first value recorded under `col` in a row, or missing. */
  function Lookup(row: Row, col: string): Value {
    if |row| == 0 then None
    else if row[0].0 == col then row[0].1
    else Lookup(row[1..], col)
  }

  function NamesOf(row: Row): (r: seq<string>)
    ensures |r| == |row|
  {
    seq(|row|, i requires 0 <= i < |row| => row[i].0)
  }

  /** All column names of a log, in recording order. */
  function Names(log: seq<Call>): seq<string> {
    if |log| == 0 then [] else Names(log[..|log| - 1]) + NamesOf(log[|log| - 1].row)
  }

  /** The names in order of first occurrence. */
  function FirstSeen(names: seq<string>): seq<string> {
    if |names| == 0 then []
    else
      var before := FirstSeen(names[..|names| - 1]);
      if names[|names| - 1] in before then before else before + [names[|names| - 1]]
  }

  /** A row's values under the given columns. */
  function Aligned(columns: seq<string>, row: Row): (r: seq<Value>)
    ensures |r| == |columns|
  {
    seq(|columns|, i requires 0 <= i < |columns| => Lookup(row, columns[i]))
  }

  /** The table a log describes: first-seen columns, and one full-width row per call. */
  function Rebuild(log: seq<Call>): WideTable {
    var columns := FirstSeen(Names(log));
    WideTable(columns, seq(|log|, i requires 0 <= i < |log| => (log[i].t, Aligned(columns, log[i].row))))
  }

  // ---- first-seen order ----

  ghost predicate NoDuplicates(s: seq<string>) {
    forall i, j :: 0 <= i < j < |s| ==> s[i] != s[j]
  }

  /** `i` is the position of the first occurrence of `name`. */
  ghost predicate FirstAt(names: seq<string>, name: string, i: nat) {
    i < |names| && names[i] == name && forall k :: 0 <= k < i ==> names[k] != name
  }

  /** Earlier columns occur first at earlier positions. */
  ghost predicate OrderedByFirst(names: seq<string>, columns: seq<string>) {
    forall a, b, i, j | 0 <= a < b < |columns| && FirstAt(names, columns[a], i) && FirstAt(names, columns[b], j) :: i < j
  }

  lemma {:induction false} FirstSeenMembers(names: seq<string>)
    ensures forall c :: c in FirstSeen(names) <==> c in names
  {
    if |names| > 0 {
      FirstSeenMembers(names[..|names| - 1]);
      assert names == names[..|names| - 1] + [names[|names| - 1]];
    }
  }

  /** Columns are distinct, are the recorded names, and come in order of first occurrence. */
  lemma {:induction false} FirstSeenOrder(names: seq<string>)
    ensures NoDuplicates(FirstSeen(names))
    ensures forall c :: c in FirstSeen(names) <==> c in names
    ensures OrderedByFirst(names, FirstSeen(names))
  {
    FirstSeenMembers(names);
    if |names| > 0 {
      var n := |names| - 1;
      var init := names[..n];
      FirstSeenOrder(init);
      assert names == init + [names[n]];
      forall a, b, i, j | 0 <= a < b < |FirstSeen(names)| && FirstAt(names, FirstSeen(names)[a], i) && FirstAt(names, FirstSeen(names)[b], j)
        ensures i < j
      {
        var x := FirstSeen(names)[a];
        assert FirstSeen(init)[a] == x;
        assert x in FirstSeen(init);
        assert x in init;
        FirstInPrefix(names, n, x, i);
        if b < |FirstSeen(init)| {
          var y := FirstSeen(names)[b];
          assert y == FirstSeen(init)[b];
          assert y in FirstSeen(init);
          assert y in init;
          FirstInPrefix(names, n, y, j);
        }
      }
    }
  }

  lemma FirstInPrefix(names: seq<string>, n: nat, x: string, i: nat)
    requires n <= |names| && x in names[..n] && FirstAt(names, x, i)
    ensures i < n && FirstAt(names[..n], x, i)
  {
    var k :| 0 <= k < n && names[..n][k] == x;
    assert names[k] == x;
  }

  // ---- recording ----

  /** The columns after the names of one more row. */
  function Extended(columns: seq<string>, names: seq<string>): seq<string> {
    if |names| == 0 then columns
    else
      var before := Extended(columns, names[..|names| - 1]);
      if names[|names| - 1] in before then before else before + [names[|names| - 1]]
  }

  lemma {:induction false} FirstSeenConcat(a: seq<string>, b: seq<string>)
    ensures FirstSeen(a + b) == Extended(FirstSeen(a), b)
  {
    if |b| == 0 {
      assert a + b == a;
    } else {
      assert (a + b)[..|a + b| - 1] == a + b[..|b| - 1];
      FirstSeenConcat(a, b[..|b| - 1]);
    }
  }

  lemma {:induction false} ExtendedPrefix(columns: seq<string>, names: seq<string>)
    ensures columns <= Extended(columns, names)
  {
    if |names| > 0 {
      ExtendedPrefix(columns, names[..|names| - 1]);
    }
  }

  lemma {:induction false} LookupAbsent(row: Row, col: string)
    requires col !in NamesOf(row)
    ensures Lookup(row, col) == None
  {
    if |row| > 0 {
      assert NamesOf(row)[0] == row[0].0;
      assert row[0].0 in NamesOf(row);
      assert NamesOf(row[1..]) == NamesOf(row)[1..];
      LookupAbsent(row[1..], col);
    }
  }

  lemma {:induction false} NamesCover(log: seq<Call>, i: nat, col: string)
    requires i < |log| && col in NamesOf(log[i].row)
    ensures col in Names(log)
  {
    if i < |log| - 1 {
      NamesCover(log[..|log| - 1], i, col);
    }
  }

  /** A column seen only later is missing in every earlier row: the back-fill value. */
  lemma LateColumnMissing(log: seq<Call>, i: nat, col: string)
    requires i < |log| && col !in FirstSeen(Names(log))
    ensures Lookup(log[i].row, col) == None
  {
    FirstSeenMembers(Names(log));
    if col in NamesOf(log[i].row) {
      NamesCover(log, i, col);
    } else {
      LookupAbsent(log[i].row, col);
    }
  }

  // ---- what a table holds ----

  /** The `k`-th entry of the row is the first of its name. */
  ghost predicate FirstNamed(row: Row, k: nat) {
    k < |row| && forall j :: 0 <= j < k ==> row[j].0 != row[k].0
  }

  /** `v` is the first value recorded under `col`, and missing when there is none. */
  ghost predicate CellHolds(v: Value, row: Row, col: string) {
    && (forall k: nat :: FirstNamed(row, k) && row[k].0 == col ==> v == row[k].1)
    && ((forall k :: 0 <= k < |row| ==> row[k].0 != col) ==> v == None)
  }

  /** The call's time and, under every column, what it recorded there. */
  ghost predicate RowHolds(stored: (nat, seq<Value>), columns: seq<string>, call: Call) {
    && stored.0 == call.t && |stored.1| == |columns|
    && forall j :: 0 <= j < |columns| ==> CellHolds(stored.1[j], call.row, columns[j])
  }

  /** The table holds the log: one row per call in order, under distinct columns that are exactly the recorded names. */
  ghost predicate Holds(t: WideTable, log: seq<Call>) {
    && NoDuplicates(t.columns)
    && (forall col :: col in t.columns <==> exists i, k :: 0 <= i < |log| && 0 <= k < |log[i].row| && log[i].row[k].0 == col)
    && |t.rows| == |log|
    && forall i :: 0 <= i < |log| ==> RowHolds(t.rows[i], t.columns, log[i])
  }

  lemma {:induction false} LookupFirst(row: Row, k: nat)
    requires FirstNamed(row, k)
    ensures Lookup(row, row[k].0) == row[k].1
  {
    if k > 0 {
      assert row[0].0 != row[k].0;
      assert FirstNamed(row[1..], k - 1);
      LookupFirst(row[1..], k - 1);
    }
  }

  lemma LookupHolds(row: Row, col: string)
    ensures CellHolds(Lookup(row, col), row, col)
  {
    forall k: nat | FirstNamed(row, k) && row[k].0 == col ensures Lookup(row, col) == row[k].1 {
      LookupFirst(row, k);
    }
    if forall k :: 0 <= k < |row| ==> row[k].0 != col {
      LookupAbsent(row, col);
    }
  }

  lemma {:induction false} NamesAre(log: seq<Call>, col: string)
    ensures col in Names(log) <==> exists i, k :: 0 <= i < |log| && 0 <= k < |log[i].row| && log[i].row[k].0 == col
  {
    if |log| > 0 {
      var n := |log| - 1;
      NamesAre(log[..n], col);
      var last := NamesOf(log[n].row);
      if col in last {
        var k :| 0 <= k < |last| && last[k] == col;
        assert log[n].row[k].0 == col;
      }
      if i, k :| 0 <= i < |log| && 0 <= k < |log[i].row| && log[i].row[k].0 == col {
        if i < n {
          assert log[..n][i].row[k].0 == col;
        } else {
          assert last[k] == col;
        }
      }
      if i, k :| 0 <= i < n && 0 <= k < |log[..n][i].row| && log[..n][i].row[k].0 == col {
        assert log[i].row[k].0 == col;
      }
    }
  }

  /** The rebuilt table holds its log. */
  lemma RebuildHolds(log: seq<Call>)
    ensures Holds(Rebuild(log), log)
  {
    var t := Rebuild(log);
    FirstSeenOrder(Names(log));
    forall col ensures col in t.columns <==> exists i, k :: 0 <= i < |log| && 0 <= k < |log[i].row| && log[i].row[k].0 == col {
      NamesAre(log, col);
    }
    hide CellHolds, FirstSeen, Names;
    forall i | 0 <= i < |log| ensures RowHolds(t.rows[i], t.columns, log[i]) {
      forall j | 0 <= j < |t.columns| ensures CellHolds(t.rows[i].1[j], log[i].row, t.columns[j]) {
        LookupHolds(log[i].row, t.columns[j]);
      }
    }
  }

  /** `resize(width, NaN)`. */
  function Widened(values: seq<Value>, width: nat): (r: seq<Value>)
    requires |values| <= width
    ensures |r| == width
  {
    values + seq(width - |values|, _ => None)
  }

  lemma NewColumnIsNew(columns: seq<string>, width: nat, k: nat)
    requires NoDuplicates(columns) && width <= k < |columns|
    ensures columns[k] !in columns[..width]
  { }

  /** Widening an earlier row of a log gives its alignment to the longer column list. */
  lemma WidenedRow(log: seq<Call>, i: nat, columns: seq<string>)
    requires i < |log| && FirstSeen(Names(log)) <= columns && NoDuplicates(columns)
    ensures Widened(Aligned(FirstSeen(Names(log)), log[i].row), |columns|) == Aligned(columns, log[i].row)
  {
    var seen := FirstSeen(Names(log));
    assert seen == columns[..|seen|];
    hide FirstSeen, Names, Lookup, NoDuplicates;
    forall k | |seen| <= k < |columns| ensures Lookup(log[i].row, columns[k]) == None {
      NewColumnIsNew(columns, |seen|, k);
      LateColumnMissing(log, i, columns[k]);
    }
    WidenedIsAligned(seen, columns, log[i].row);
  }

  lemma WidenedIsAligned(seen: seq<string>, columns: seq<string>, row: Row)
    requires |seen| <= |columns| && seen == columns[..|seen|]
    requires forall k :: |seen| <= k < |columns| ==> Lookup(row, columns[k]) == None
    ensures Widened(Aligned(seen, row), |columns|) == Aligned(columns, row)
  {
    hide Lookup;
    assert forall k :: 0 <= k < |seen| ==> seen[k] == columns[k];
  }

  /** Collects `record_row` calls into per-table wide tables. */
  class CsvRecorder {
    var tables: map<string, WideTable>
    var schemas: map<string, seq<string>>
    ghost var log: map<string, seq<Call>>

    /** Every table is the one its call log describes. */
    ghost predicate Valid()
      reads this
    {
      && tables.Keys == log.Keys
      && forall name :: name in tables ==> log[name] != [] && tables[name] == Rebuild(log[name])
    }

    constructor ()
      ensures Valid() && log == map[] && schemas == map[]
    {
      tables := map[];
      schemas := map[];
      log := map[];
    }

    ghost function LogOf(name: string): seq<Call>
      reads this
    {
      if name in log then log[name] else []
    }

    method RecordRow(t: nat, table: string, row: Row)
      requires Valid()
      modifies this`tables, this`log
      ensures Valid()
      ensures log == old(log)[table := old(LogOf(table)) + [Call(t, row)]]
      ensures forall name :: name in tables <==> name in log
      ensures forall name :: name in tables ==> Holds(tables[name], log[name])
    {
      var entry := if table in tables then tables[table] else WideTable([], []);
      ghost var calls := LogOf(table);
      assert entry == Rebuild(calls);
      var columns := AppendColumns(entry.columns, row);
      var rows := BackFill(entry.rows, |columns|, calls, columns, row);
      var values := AlignRow(columns, row);
      rows := rows + [(t, values)];
      AppendIsRebuild(calls, Call(t, row), columns, rows);
      tables := tables[table := WideTable(columns, rows)];
      log := log[table := calls + [Call(t, row)]];
      forall name | name in tables ensures Holds(tables[name], log[name]) {
        RebuildHolds(log[name]);
      }
    }

    /** Pins the columns of a table's output; the stored rows are untouched. */
    method SetColumns(table: string, columns: seq<string>)
      requires Valid()
      modifies this`schemas
      ensures Valid() && schemas == old(schemas)[table := columns]
    {
      schemas := schemas[table := columns];
    }

    /** The rendered table, as a function of the call log and the pinned schema alone. */
    method TableCsv(name: string, showT: nat -> string, show: real -> string) returns (csv: Option<string>)
      requires Valid()
      ensures csv == if name !in log then None
                     else if name in schemas then Some(RenderLog(log[name], schemas[name], showT, v => Blank(v, show)))
                     else Some(RenderLog(log[name], FirstSeen(Names(log[name])), showT, v => Plain(v, show)))
      ensures name in log && name in schemas && Separable(log[name], schemas[name], showT, show) ==>
        ReadsBack(csv.value, log[name], schemas[name], showT, show, "")
      ensures name in log && name !in schemas && Separable(log[name], tables[name].columns, showT, show) ==>
        ReadsBack(csv.value, log[name], tables[name].columns, showT, show, "NaN")
    {
      if name !in tables {
        return None;
      }
      var t := tables[name];
      ghost var calls := log[name];
      var text;
      if name in schemas {
        text := TableCsvWithSchema(t, schemas[name], showT, show);
        SchemaAgreesWithLog(calls, schemas[name], showT, show);
        if Separable(calls, schemas[name], showT, show) {
          RenderReadsBack(calls, schemas[name], showT, show, v => Blank(v, show), "");
        }
      } else {
        text := TableCsvAuto(t, showT, show);
        AutoAgreesWithLog(calls, showT, show);
        if Separable(calls, t.columns, showT, show) {
          RenderReadsBack(calls, t.columns, showT, show, v => Plain(v, show), "NaN");
        }
      }
      csv := Some(text);
    }
  }

  /** Appends the row's unseen names in order. */
  method AppendColumns(columns: seq<string>, row: Row) returns (longer: seq<string>)
    ensures longer == Extended(columns, NamesOf(row))
  {
    longer := columns;
    for i := 0 to |row|
      invariant longer == Extended(columns, NamesOf(row)[..i])
    {
      assert NamesOf(row)[..i + 1][..i] == NamesOf(row)[..i];
      if row[i].0 !in longer {
        longer := longer + [row[i].0];
      }
    }
    assert NamesOf(row)[..|row|] == NamesOf(row);
  }

  /** Widens every earlier row with missing values. */
  method BackFill(rows: seq<(nat, seq<Value>)>, width: nat, ghost calls: seq<Call>, ghost columns: seq<string>, ghost row: Row)
    returns (wide: seq<(nat, seq<Value>)>)
    requires rows == Rebuild(calls).rows && width == |columns|
    requires columns == Extended(FirstSeen(Names(calls)), NamesOf(row))
    ensures |wide| == |calls|
    ensures forall i :: 0 <= i < |calls| ==> wide[i] == (calls[i].t, Aligned(columns, calls[i].row))
  {
    ExtendedPrefix(FirstSeen(Names(calls)), NamesOf(row));
    FirstSeenConcat(Names(calls), NamesOf(row));
    FirstSeenOrder(Names(calls) + NamesOf(row));
    hide FirstSeen, Names, Extended, Widened, Aligned;
    wide := [];
    for i := 0 to |rows|
      invariant |wide| == i
      invariant forall k :: 0 <= k < i ==> wide[k] == (calls[k].t, Aligned(columns, calls[k].row))
    {
      WidenedRow(calls, i, columns);
      assert rows[i] == (calls[i].t, Aligned(FirstSeen(Names(calls)), calls[i].row));
      wide := wide + [(rows[i].0, Widened(rows[i].1, width))];
    }
  }

  /** The incoming row under the current columns. */
  method AlignRow(columns: seq<string>, row: Row) returns (values: seq<Value>)
    ensures values == Aligned(columns, row)
  {
    values := [];
    for k := 0 to |columns|
      invariant values == Aligned(columns, row)[..k]
    {
      values := values + [Lookup(row, columns[k])];
    }
  }

  lemma {:induction false} AppendIsRebuild(calls: seq<Call>, call: Call, columns: seq<string>, rows: seq<(nat, seq<Value>)>)
    requires columns == Extended(FirstSeen(Names(calls)), NamesOf(call.row))
    requires |rows| == |calls| + 1 && rows[|calls|] == (call.t, Aligned(columns, call.row))
    requires forall i :: 0 <= i < |calls| ==> rows[i] == (calls[i].t, Aligned(columns, calls[i].row))
    ensures WideTable(columns, rows) == Rebuild(calls + [call])
  {
    var log := calls + [call];
    assert log[..|log| - 1] == calls;
    FirstSeenConcat(Names(calls), NamesOf(call.row));
    hide FirstSeen, Names, Extended, Aligned;
    assert rows == Rebuild(log).rows;
  }

  // ---- rendering ----

  /** Missing values as empty fields. */
  function Blank(v: Value, show: real -> string): string { if v.Some? then show(v.value) else "" }

  /** Missing values as the number format prints NaN. */
  function Plain(v: Value, show: real -> string): string { if v.Some? then show(v.value) else "NaN" }

  /** The fields, each after a comma. */
  function Fields(values: seq<Value>, text: Value -> string): string {
    if |values| == 0 then "" else Fields(values[..|values| - 1], text) + "," + text(values[|values| - 1])
  }

  function Header(columns: seq<string>): string {
    if |columns| == 0 then "t" else Header(columns[..|columns| - 1]) + "," + columns[|columns| - 1]
  }

  /** The lines of the first calls of a log under the given columns. */
  function Lines(log: seq<Call>, columns: seq<string>, showT: nat -> string, text: Value -> string): string {
    if |log| == 0 then ""
    else
      var n := |log| - 1;
      Lines(log[..n], columns, showT, text) + showT(log[n].t) + Fields(Aligned(columns, log[n].row), text) + "\n"
  }

  function RenderLog(log: seq<Call>, columns: seq<string>, showT: nat -> string, text: Value -> string): string {
    Header(columns) + "\n" + Lines(log, columns, showT, text)
  }

  // ---- reading a rendered table back ----

  /** Free of separators. */
  ghost predicate Plainly(s: string) { ',' !in s && '\n' !in s }

  /** No name, time or printed number contains a separator. */
  ghost predicate Separable(log: seq<Call>, columns: seq<string>, showT: nat -> string, show: real -> string) {
    && (forall j :: 0 <= j < |columns| ==> Plainly(columns[j]))
    && (forall i :: 0 <= i < |log| ==> Plainly(showT(log[i].t)))
    && (forall x :: Plainly(show(x)))
  }

  /** A field holds what the call recorded under the column, or the sign for a missing value. */
  ghost predicate FieldHolds(field: string, row: Row, col: string, show: real -> string, missing: string) {
    exists v: Value :: CellHolds(v, row, col) && field == if v.Some? then show(v.value) else missing
  }

  /** Split into lines and fields, the text gives back the columns and what every call recorded. */
  ghost predicate ReadsBack(csv: string, log: seq<Call>, columns: seq<string>, showT: nat -> string, show: real -> string, missing: string) {
    var lines := Split(csv, '\n');
    && |lines| == |log| + 2 && lines[|log| + 1] == ""
    && Split(lines[0], ',') == ["t"] + columns
    && forall i :: 0 <= i < |log| ==> LineHolds(Split(lines[i + 1], ','), log[i], columns, showT, show, missing)
  }

  ghost predicate LineHolds(fields: seq<string>, call: Call, columns: seq<string>, showT: nat -> string, show: real -> string, missing: string) {
    && |fields| == |columns| + 1 && fields[0] == showT(call.t)
    && forall j :: 0 <= j < |columns| ==> FieldHolds(fields[j + 1], call.row, columns[j], show, missing)
  }

  lemma Comma()
    ensures "," == [',']
  { }

  /** The printed pieces of all but the last, and the last. */
  lemma PushPiece(first: string, pieces: seq<string>, n: nat)
    requires |pieces| == n + 1
    ensures [first] + pieces == [first] + pieces[..n] + [pieces[n]]
  { }

  lemma HeaderNext(columns: seq<string>, n: nat)
    requires |columns| == n + 1
    ensures Header(columns) == Header(columns[..n]) + [','] + columns[n]
  {
    Comma();
  }

  lemma NoNewline(a: string, c: char, b: string)
    requires '\n' !in a && c != '\n' && '\n' !in b
    ensures '\n' !in a + [c] + b
  { }

  lemma {:induction false} HeaderSplits(columns: seq<string>)
    requires forall j :: 0 <= j < |columns| ==> Plainly(columns[j])
    ensures Split(Header(columns), ',') == ["t"] + columns && '\n' !in Header(columns)
  {
    if |columns| == 0 {
      SplitPlain("t", ',');
    } else {
      var n := |columns| - 1;
      HeaderNext(columns, n);
      PushPiece("t", columns, n);
      hide Header, Split;
      HeaderSplits(columns[..n]);
      SplitJoined(Header(columns[..n]), ',', columns[n]);
      SplitPlain(columns[n], ',');
      NoNewline(Header(columns[..n]), ',', columns[n]);
    }
  }

  /** The printed values. */
  function Texts(values: seq<Value>, text: Value -> string): (r: seq<string>)
    ensures |r| == |values|
  {
    seq(|values|, k requires 0 <= k < |values| => text(values[k]))
  }

  lemma FieldsNext(values: seq<Value>, text: Value -> string, n: nat)
    requires |values| == n + 1
    ensures Fields(values, text) == Fields(values[..n], text) + [','] + text(values[n])
  {
    Comma();
  }

  lemma TextsNext(values: seq<Value>, text: Value -> string, n: nat)
    requires |values| == n + 1
    ensures Texts(values, text)[..n] == Texts(values[..n], text) && Texts(values, text)[n] == text(values[n])
  { }

  lemma Regroup(a: string, b: string, c: string, d: string)
    ensures a + (b + c + d) == a + b + c + d
  { }

  lemma {:induction false} FieldsSplit(start: string, values: seq<Value>, text: Value -> string)
    requires Plainly(start) && forall v :: Plainly(text(v))
    ensures Split(start + Fields(values, text), ',') == [start] + Texts(values, text)
    ensures '\n' !in start + Fields(values, text)
  {
    if |values| == 0 {
      assert start + Fields(values, text) == start;
      SplitPlain(start, ',');
    } else {
      var n := |values| - 1;
      FieldsNext(values, text, n);
      TextsNext(values, text, n);
      PushPiece(start, Texts(values, text), n);
      Regroup(start, Fields(values[..n], text), [','], text(values[n]));
      assert Plainly(text(values[n]));
      hide Fields, Split, Texts;
      var before := start + Fields(values[..n], text);
      FieldsSplit(start, values[..n], text);
      SplitJoined(before, ',', text(values[n]));
      SplitPlain(text(values[n]), ',');
      NoNewline(before, ',', text(values[n]));
    }
  }

  /** The line of one call. */
  function LineOf(call: Call, columns: seq<string>, showT: nat -> string, text: Value -> string): string {
    showT(call.t) + Fields(Aligned(columns, call.row), text)
  }

  function LinesOf(log: seq<Call>, columns: seq<string>, showT: nat -> string, text: Value -> string): (r: seq<string>)
    ensures |r| == |log|
  {
    seq(|log|, i requires 0 <= i < |log| => LineOf(log[i], columns, showT, text))
  }

  /** The text up to the end of the last line but its line end. */
  lemma LinesNext(start: string, log: seq<Call>, columns: seq<string>, showT: nat -> string, text: Value -> string, n: nat) returns (a: string)
    requires |log| == n + 1
    ensures start + "\n" + Lines(log[..n], columns, showT, text) == a + ['\n']
    ensures start + "\n" + Lines(log, columns, showT, text) == a + ['\n'] + LineOf(log[n], columns, showT, text) + ['\n']
    ensures LinesOf(log, columns, showT, text) == LinesOf(log[..n], columns, showT, text) + [LineOf(log[n], columns, showT, text)]
  {
    var before := start + "\n" + Lines(log[..n], columns, showT, text);
    EndsInNewline(start, log[..n], columns, showT, text);
    a := before[..|before| - 1];
    hide Fields, Aligned;
    assert Lines(log, columns, showT, text) == Lines(log[..n], columns, showT, text) + LineOf(log[n], columns, showT, text) + "\n";
  }

  lemma EndsInNewline(start: string, log: seq<Call>, columns: seq<string>, showT: nat -> string, text: Value -> string)
    ensures var s := start + "\n" + Lines(log, columns, showT, text); |s| > 0 && s[|s| - 1] == '\n'
  { }

  lemma NoLines(start: string, columns: seq<string>, showT: nat -> string, text: Value -> string)
    requires '\n' !in start
    ensures Split(start + "\n" + Lines([], columns, showT, text), '\n') == [start] + LinesOf([], columns, showT, text) + [""]
  {
    SplitLine(start, "", '\n');
    SplitPlain(start, '\n');
    assert start + "\n" + Lines([], columns, showT, text) == start + ['\n'];
    assert [start] + LinesOf([], columns, showT, text) + [""] == [start] + [""];
  }

  lemma LineIsPlain(call: Call, columns: seq<string>, showT: nat -> string, text: Value -> string)
    requires Plainly(showT(call.t)) && forall v :: Plainly(text(v))
    ensures '\n' !in LineOf(call, columns, showT, text)
  {
    FieldsSplit(showT(call.t), Aligned(columns, call.row), text);
  }

  lemma {:induction false} LinesSplit(start: string, log: seq<Call>, columns: seq<string>, showT: nat -> string, text: Value -> string)
    requires '\n' !in start && (forall v :: Plainly(text(v))) && forall i :: 0 <= i < |log| ==> Plainly(showT(log[i].t))
    ensures Split(start + "\n" + Lines(log, columns, showT, text), '\n') == [start] + LinesOf(log, columns, showT, text) + [""]
  {
    hide Split, Lines, Fields, Aligned, LineOf, LinesOf, Plainly;
    if |log| == 0 {
      assert log == [];
      NoLines(start, columns, showT, text);
    } else {
      var n := |log| - 1;
      var a := LinesNext(start, log, columns, showT, text, n);
      var line := LineOf(log[n], columns, showT, text);
      LineIsPlain(log[n], columns, showT, text);
      LinesSplit(start, log[..n], columns, showT, text);
      SplitLine(a, line, '\n');
      SamePieces(Split(a, '\n'), [start] + LinesOf(log[..n], columns, showT, text), line);
      Regather(start, LinesOf(log[..n], columns, showT, text), line);
    }
  }

  lemma Regather(start: string, lines: seq<string>, line: string)
    ensures [start] + lines + [line] == [start] + (lines + [line])
  { }

  lemma SamePieces(x: seq<string>, y: seq<string>, line: string)
    requires x + [""] == y + [""]
    ensures x + [line, ""] == y + [line] + [""]
  {
    assert x == (x + [""])[..|x|] && y == (y + [""])[..|y|];
    assert |x| == |x + [""]| - 1 == |y|;
  }

  /** The rendered log reads back. */
  lemma RenderReadsBack(log: seq<Call>, columns: seq<string>, showT: nat -> string, show: real -> string, text: Value -> string, missing: string)
    requires Separable(log, columns, showT, show) && Plainly(missing)
    requires forall v :: text(v) == if v.Some? then show(v.value) else missing
    ensures ReadsBack(RenderLog(log, columns, showT, text), log, columns, showT, show, missing)
  {
    TextsArePlain(log, columns, showT, show, text, missing);
    HeaderSplits(columns);
    LinesSplit(Header(columns), log, columns, showT, text);
    hide CellHolds, Split, Fields, Header, Lines, Plainly, LineOf, LineHolds;
    var lines := LinesOf(log, columns, showT, text);
    forall i | 0 <= i < |log| ensures LineHolds(Split(lines[i], ','), log[i], columns, showT, show, missing) {
      LineReadsBack(log[i], columns, showT, show, text, missing);
    }
    Gather(Header(columns), lines);
  }

  lemma Gather(first: string, lines: seq<string>)
    ensures var all := [first] + lines + [""];
            |all| == |lines| + 2 && all[0] == first && all[|lines| + 1] == "" && forall i :: 0 <= i < |lines| ==> all[i + 1] == lines[i]
  { }

  lemma TextsArePlain(log: seq<Call>, columns: seq<string>, showT: nat -> string, show: real -> string, text: Value -> string, missing: string)
    requires Separable(log, columns, showT, show) && Plainly(missing)
    requires forall v :: text(v) == if v.Some? then show(v.value) else missing
    ensures forall v :: Plainly(text(v))
  {
    forall v ensures Plainly(text(v)) {
      if v.Some? {
        var x: real := v.value;
        assert Plainly(show(x));
      }
    }
  }

  lemma LineReadsBack(call: Call, columns: seq<string>, showT: nat -> string, show: real -> string, text: Value -> string, missing: string)
    requires Plainly(showT(call.t)) && (forall v :: Plainly(text(v)))
    requires forall v :: text(v) == if v.Some? then show(v.value) else missing
    ensures LineHolds(Split(LineOf(call, columns, showT, text), ','), call, columns, showT, show, missing)
  {
    hide CellHolds, Split, Fields, Plainly;
    FieldsSplit(showT(call.t), Aligned(columns, call.row), text);
    forall j | 0 <= j < |columns| ensures FieldHolds(text(Lookup(call.row, columns[j])), call.row, columns[j], show, missing) {
      LookupHolds(call.row, columns[j]);
    }
  }

  /** The lines of stored rows, each reduced to the wanted values. */
  function RowLines(rows: seq<(nat, seq<Value>)>, showT: nat -> string, text: Value -> string): string {
    if |rows| == 0 then ""
    else
      var n := |rows| - 1;
      RowLines(rows[..n], showT, text) + showT(rows[n].0) + Fields(rows[n].1, text) + "\n"
  }

  method RenderHeader(columns: seq<string>) returns (text: string)
    ensures text == Header(columns)
  {
    text := "t";
    for i := 0 to |columns|
      invariant text == Header(columns[..i])
    {
      assert columns[..i + 1][..i] == columns[..i];
      text := text + "," + columns[i];
    }
    assert columns[..|columns|] == columns;
  }

  method RenderRows(rows: seq<(nat, seq<Value>)>, showT: nat -> string, text: Value -> string) returns (lines: string)
    ensures lines == RowLines(rows, showT, text)
  {
    lines := "";
    for i := 0 to |rows|
      invariant lines == RowLines(rows[..i], showT, text)
    {
      assert rows[..i + 1][..i] == rows[..i];
      var fields := "";
      for k := 0 to |rows[i].1|
        invariant fields == Fields(rows[i].1[..k], text)
      {
        assert rows[i].1[..k + 1][..k] == rows[i].1[..k];
        fields := fields + "," + text(rows[i].1[k]);
      }
      assert rows[i].1[..|rows[i].1|] == rows[i].1;
      lines := lines + showT(rows[i].0) + fields + "\n";
    }
    assert rows[..|rows|] == rows;
  }

  /** Auto-discovered rendering: the stored columns. */
  method TableCsvAuto(t: WideTable, showT: nat -> string, show: real -> string) returns (text: string)
    ensures text == Header(t.columns) + "\n" + RowLines(t.rows, showT, v => Plain(v, show))
  {
    var header := RenderHeader(t.columns);
    var lines := RenderRows(t.rows, showT, v => Plain(v, show));
    text := header + "\n" + lines;
  }

  /** The position of a column, if the table ever saw it. */
  function PositionOf(columns: seq<string>, col: string): (r: Option<nat>)
    ensures r.Some? <==> col in columns
    ensures r.Some? ==> r.value < |columns| && columns[r.value] == col
  {
    if |columns| == 0 then None
    else if columns[|columns| - 1] == col && PositionOf(columns[..|columns| - 1], col).None? then Some(|columns| - 1)
    else
      assert columns == columns[..|columns| - 1] + [columns[|columns| - 1]];
      PositionOf(columns[..|columns| - 1], col)
  }

  /** One stored row under the pinned schema. */
  function Picked(columns: seq<string>, values: seq<Value>, schema: seq<string>): (r: seq<Value>)
    ensures |r| == |schema|
  {
    seq(|schema|, k requires 0 <= k < |schema| =>
      var at := PositionOf(columns, schema[k]);
      if at.Some? && at.value < |values| then values[at.value] else None)
  }

  function PickedRows(t: WideTable, schema: seq<string>): (r: seq<(nat, seq<Value>)>)
    ensures |r| == |t.rows|
  {
    seq(|t.rows|, i requires 0 <= i < |t.rows| => (t.rows[i].0, Picked(t.columns, t.rows[i].1, schema)))
  }

  /** Schema-pinned rendering: columns exactly as given, missing values empty. */
  method TableCsvWithSchema(t: WideTable, schema: seq<string>, showT: nat -> string, show: real -> string) returns (text: string)
    ensures text == Header(schema) + "\n" + RowLines(PickedRows(t, schema), showT, v => Blank(v, show))
  {
    var header := RenderHeader(schema);
    var lines := RenderRows(PickedRows(t, schema), showT, v => Blank(v, show));
    text := header + "\n" + lines;
  }

  /** Picking a schema out of a rebuilt row reads the recorded values. */
  lemma PickedFromLog(log: seq<Call>, i: nat, schema: seq<string>)
    requires i < |log|
    ensures Picked(FirstSeen(Names(log)), Aligned(FirstSeen(Names(log)), log[i].row), schema) == Aligned(schema, log[i].row)
  {
    var columns := FirstSeen(Names(log));
    forall k | 0 <= k < |schema| ensures Picked(columns, Aligned(columns, log[i].row), schema)[k] == Lookup(log[i].row, schema[k]) {
      if schema[k] !in columns {
        LateColumnMissing(log, i, schema[k]);
      }
    }
  }

  lemma {:induction false} LinesFromRows(log: seq<Call>, columns: seq<string>, rows: seq<(nat, seq<Value>)>, showT: nat -> string, text: Value -> string)
    requires |rows| == |log| && forall i :: 0 <= i < |log| ==> rows[i] == (log[i].t, Aligned(columns, log[i].row))
    ensures RowLines(rows, showT, text) == Lines(log, columns, showT, text)
  {
    if |log| > 0 {
      LinesFromRows(log[..|log| - 1], columns, rows[..|rows| - 1], showT, text);
    }
  }

  /** Schema-pinned output agrees with the log, whatever columns the schema names. */
  lemma SchemaAgreesWithLog(log: seq<Call>, schema: seq<string>, showT: nat -> string, show: real -> string)
    ensures Header(schema) + "\n" + RowLines(PickedRows(Rebuild(log), schema), showT, v => Blank(v, show))
         == RenderLog(log, schema, showT, v => Blank(v, show))
  {
    var rows := PickedRows(Rebuild(log), schema);
    forall i | 0 <= i < |log| ensures rows[i] == (log[i].t, Aligned(schema, log[i].row)) {
      PickedFromLog(log, i, schema);
    }
    LinesFromRows(log, schema, rows, showT, v => Blank(v, show));
  }

  lemma AutoAgreesWithLog(log: seq<Call>, showT: nat -> string, show: real -> string)
    ensures Header(Rebuild(log).columns) + "\n" + RowLines(Rebuild(log).rows, showT, v => Plain(v, show))
         == RenderLog(log, FirstSeen(Names(log)), showT, v => Plain(v, show))
  {
    LinesFromRows(log, FirstSeen(Names(log)), Rebuild(log).rows, showT, v => Plain(v, show));
  }
}
