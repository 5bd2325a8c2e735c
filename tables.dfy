/** The in-memory table of `load_data`: rows as maps from column name to a
    nullable cell, and the table operations it is built with (concatenation,
    date parsing, sorting, column projection). */
module Tables {
  import opened Wrappers
  import opened Orders
  import opened Calendar

  type ColName = string

  /** A cell value: text as read from the CSV files, or a parsed date/time. */
  datatype Value = Text(s: string) | Stamp(t: Timestamp)

  /** `None` is pandas' NaN / NaT. */
  type Cell = Option<Value>

  type Row = map<ColName, Cell>

  datatype Table = Table(columns: seq<ColName>, rows: seq<Row>)

  const WellCol: ColName := "well_legal_name"
  const EventCol: ColName := "event_id"
  const TimeFromCol: ColName := "time_from"
  const StartCol: ColName := "date_ops_start"
  const EndCol: ColName := "date_ops_end"
  const ObjectiveCol: ColName := "event_objective_1"

  /** The columns converted with `pd.to_datetime(..., errors="coerce")`. */
  const DateCols: seq<ColName> := [TimeFromCol, "time_to", StartCol, EndCol]

  /** The logical order of the cached table. */
  const SortCols: seq<ColName> := [WellCol, EventCol, TimeFromCol]

  /** The columns the cached table keeps, in this order. */
  const WantedCols: seq<ColName> := [
    "rig_name", "loc_fed_lease_no", WellCol, "activity_class_desc",
    "activity_code_desc", "activity_duration", "expr1", "activity_subcode2",
    "step_no", TimeFromCol, "time_to", EndCol, StartCol, "event_code",
    ObjectiveCol, "event_objective_2", EventCol]

  function ColSet(cols: seq<ColName>): set<ColName>
  {
    set c | c in cols
  }

  /** Column names are unique and every row has exactly the table's columns. */
  predicate WellFormed(t: Table)
  {
    Distinct(t.columns) && forall r :: r in t.rows ==> r.Keys == ColSet(t.columns)
  }

  /** The cell of `r` in column `c`; a column the row lacks reads as null. */
  function CellOf(r: Row, c: ColName): Cell
  {
    if c in r then r[c] else None
  }

  predicate IsText(c: Cell)
  {
    c.None? || c.value.Text?
  }

  predicate IsStamp(c: Cell)
  {
    c.None? || c.value.Stamp?
  }

  /** A frame as `pd.read_csv(..., dtype=str)` returns it: every cell text or null. */
  predicate CsvFrame(t: Table)
  {
    WellFormed(t) && forall r, c :: r in t.rows && c in r ==> IsText(r[c])
  }

  /** Date columns hold timestamps or nulls, every other column text or nulls. */
  predicate Typed(t: Table)
  {
    forall r, c :: r in t.rows && c in r ==> if c in DateCols then IsStamp(r[c]) else IsText(r[c])
  }

  // ---------------------------------------------------------------- concatenation

  /** The columns of `b` that `a` lacks, in `b`'s order. */
  function NewColumns(a: seq<ColName>, b: seq<ColName>): seq<ColName>
  {
    if b == [] then [] else (if b[0] in a then [] else [b[0]]) + NewColumns(a, b[1..])
  }

  lemma {:induction false} NewColumnsMembers(a: seq<ColName>, b: seq<ColName>)
    ensures forall c :: c in NewColumns(a, b) <==> c in b && c !in a
  {
    if b != [] {
      NewColumnsMembers(a, b[1..]);
      assert b == [b[0]] + b[1..];
    }
  }

  lemma {:induction false} NewColumnsSpec(a: seq<ColName>, b: seq<ColName>)
    requires Distinct(b)
    ensures Distinct(NewColumns(a, b))
    ensures forall c :: c in NewColumns(a, b) <==> c in b && c !in a
  {
    NewColumnsMembers(a, b);
    if b != [] {
      NewColumnsSpec(a, b[1..]);
    }
  }

  /** The outer union of two column lists, in order of first appearance. */
  function UnionColumns(a: seq<ColName>, b: seq<ColName>): seq<ColName>
  {
    a + NewColumns(a, b)
  }

  /** `r` reindexed to `cols`: cells it lacks become null. */
  function Widen(r: Row, cols: seq<ColName>): Row
  {
    map c | c in cols :: CellOf(r, c)
  }

  function WidenAll(rows: seq<Row>, cols: seq<ColName>): (w: seq<Row>)
    ensures |w| == |rows|
  {
    seq(|rows|, i requires 0 <= i < |rows| => Widen(rows[i], cols))
  }

  /** `pd.concat([a, b], ignore_index=True)`. */
  function Concat(a: Table, b: Table): Table
  {
    var cols := UnionColumns(a.columns, b.columns);
    Table(cols, WidenAll(a.rows, cols) + WidenAll(b.rows, cols))
  }

  /** `pd.concat(df_list, ignore_index=True)`. */
  function ConcatAll(fs: seq<Table>): Table
  {
    if fs == [] then Table([], []) else Concat(ConcatAll(fs[..|fs| - 1]), fs[|fs| - 1])
  }

  /** Every column of any source frame. */
  function AllColumns(fs: seq<Table>): set<ColName>
  {
    if fs == [] then {} else AllColumns(fs[..|fs| - 1]) + ColSet(fs[|fs| - 1].columns)
  }

  function TotalRows(fs: seq<Table>): nat
  {
    if fs == [] then 0 else TotalRows(fs[..|fs| - 1]) + |fs[|fs| - 1].rows|
  }

  lemma WidenSpec(r: Row, cols: seq<ColName>)
    requires forall c :: c in r ==> IsText(r[c])
    ensures Widen(r, cols).Keys == ColSet(cols)
    ensures forall c :: c in cols ==> Widen(r, cols)[c] == CellOf(r, c)
    ensures forall c :: c in Widen(r, cols) ==> IsText(Widen(r, cols)[c])
  {
  }

  /** Widening to a narrower list holding every column of the row, then to a
      wider one, is widening to the wider one at once. */
  lemma WidenTwice(r: Row, narrow: seq<ColName>, wide: seq<ColName>)
    requires r.Keys <= ColSet(narrow) <= ColSet(wide)
    ensures Widen(Widen(r, narrow), wide) == Widen(r, wide)
  {
    forall c | c in wide ensures CellOf(Widen(r, narrow), c) == CellOf(r, c) {
      if c !in narrow {
        assert c !in r;
      }
    }
  }

  /** The outer union of two lists without repeats has no repeats and holds
      the columns of both. */
  lemma UnionColumnsSpec(a: seq<ColName>, b: seq<ColName>)
    requires Distinct(a) && Distinct(b)
    ensures Distinct(UnionColumns(a, b))
    ensures ColSet(UnionColumns(a, b)) == ColSet(a) + ColSet(b)
  {
    var cols, added := UnionColumns(a, b), NewColumns(a, b);
    NewColumnsSpec(a, b);
    forall i, j | 0 <= i < j < |cols| ensures cols[i] != cols[j] {
      if j >= |a| {
        assert cols[j] == added[j - |a|];
        if i < |a| {
          assert cols[i] in a;
        } else {
          assert cols[i] == added[i - |a|];
        }
      }
    }
  }

  /** Widening all-text rows to `cols` gives all-text rows with exactly `cols`. */
  lemma WidenAllSpec(rows: seq<Row>, cols: seq<ColName>)
    requires forall r, c :: r in rows && c in r ==> IsText(r[c])
    ensures forall r :: r in WidenAll(rows, cols) ==> r.Keys == ColSet(cols)
    ensures forall r, c :: r in WidenAll(rows, cols) && c in r ==> IsText(r[c])
  {
    var w := WidenAll(rows, cols);
    forall r | r in w ensures r.Keys == ColSet(cols) && forall c :: c in r ==> IsText(r[c]) {
      var i :| 0 <= i < |w| && w[i] == r;
      WidenSpec(rows[i], cols);
    }
  }

  lemma ConcatSpec(a: Table, b: Table)
    requires CsvFrame(a) && CsvFrame(b)
    ensures CsvFrame(Concat(a, b))
    ensures ColSet(Concat(a, b).columns) == ColSet(a.columns) + ColSet(b.columns)
    ensures |Concat(a, b).rows| == |a.rows| + |b.rows|
  {
    var cols := UnionColumns(a.columns, b.columns);
    UnionColumnsSpec(a.columns, b.columns);
    WidenAllSpec(a.rows, cols);
    WidenAllSpec(b.rows, cols);
    var wa, wb := WidenAll(a.rows, cols), WidenAll(b.rows, cols);
    forall r | r in wa + wb ensures r in wa || r in wb {
    }
  }

  lemma {:induction false} ConcatAllShape(fs: seq<Table>)
    requires forall i :: 0 <= i < |fs| ==> CsvFrame(fs[i])
    ensures CsvFrame(ConcatAll(fs))
    ensures ColSet(ConcatAll(fs).columns) == AllColumns(fs)
    ensures |ConcatAll(fs).rows| == TotalRows(fs)
  {
    if fs != [] {
      ConcatAllShape(fs[..|fs| - 1]);
      ConcatSpec(ConcatAll(fs[..|fs| - 1]), fs[|fs| - 1]);
    }
  }

  /** Row `k` of `t` is `r` reindexed to the columns of `t`. */
  predicate HoldsRowAt(t: Table, k: int, r: Row)
  {
    0 <= k < |t.rows| && t.rows[k] == Widen(r, t.columns)
  }

  /** A row of `a` reindexed to `a`'s columns stays at its place in
      `Concat(a, b)`, reindexed to the union of the columns. */
  lemma ConcatKeepsRow(a: Table, b: Table, k: nat, r: Row)
    requires k < |a.rows| && a.rows[k] == Widen(r, a.columns) && r.Keys <= ColSet(a.columns)
    ensures HoldsRowAt(Concat(a, b), k, r)
  {
    var cols := UnionColumns(a.columns, b.columns);
    assert Concat(a, b).rows[k] == Widen(a.rows[k], cols);
    WidenTwice(r, a.columns, cols);
  }

  /** Row `i` of `b` follows the rows of `a` in `Concat(a, b)`. */
  lemma ConcatAddsRow(a: Table, b: Table, i: nat)
    requires i < |b.rows|
    ensures HoldsRowAt(Concat(a, b), |a.rows| + i, b.rows[i])
  {
  }

  lemma {:induction false} ConcatAllCount(fs: seq<Table>)
    ensures |ConcatAll(fs).rows| == TotalRows(fs)
  {
    if fs != [] {
      ConcatAllCount(fs[..|fs| - 1]);
    }
  }

  /** Every column of a frame is a column of the concatenation. */
  lemma {:induction false} ConcatAllHasColumns(fs: seq<Table>, f: nat)
    requires f < |fs|
    ensures ColSet(fs[f].columns) <= ColSet(ConcatAll(fs).columns)
  {
    var init, last := fs[..|fs| - 1], fs[|fs| - 1];
    var a := ConcatAll(init).columns;
    NewColumnsMembers(a, last.columns);
    assert ConcatAll(fs).columns == a + NewColumns(a, last.columns);
    if f < |fs| - 1 {
      ConcatAllHasColumns(init, f);
      assert init[f] == fs[f];
    }
  }

  /** The last frame is concatenated onto the concatenation of the others. */
  lemma ConcatAllLast(fs: seq<Table>)
    requires fs != []
    ensures ConcatAll(fs) == Concat(ConcatAll(fs[..|fs| - 1]), fs[|fs| - 1])
  {
  }

  /** The rows of the last frame follow those of the others. */
  lemma ConcatAllLastRow(fs: seq<Table>, f: nat, i: nat)
    requires f == |fs| - 1 && i < |fs[f].rows|
    ensures HoldsRowAt(ConcatAll(fs), TotalRows(fs[..f]) + i, fs[f].rows[i])
  {
    ConcatAllLast(fs);
    ConcatAllCount(fs[..f]);
    ConcatAddsRow(ConcatAll(fs[..f]), fs[f], i);
  }

  /** A row of an earlier frame keeps the place it has in the concatenation
      of the frames before the last one. */
  lemma {:induction false} ConcatAllEarlierRow(fs: seq<Table>, f: nat, i: nat)
    requires f < |fs| - 1 && i < |fs[f].rows|
    requires fs[f].rows[i].Keys <= ColSet(fs[f].columns)
    ensures HoldsRowAt(ConcatAll(fs), TotalRows(fs[..f]) + i, fs[f].rows[i])
    decreases |fs|, 0
  {
    var init := fs[..|fs| - 1];
    var a := ConcatAll(init);
    assert init[..f] == fs[..f] && init[f] == fs[f];
    ConcatAllRow(init, f, i);
    ConcatAllLast(fs);
    ConcatAllHasColumns(init, f);
    ConcatKeepsRow(a, fs[|fs| - 1], TotalRows(fs[..f]) + i, fs[f].rows[i]);
  }

  /** Row `i` of frame `f` sits at position `TotalRows(fs[..f]) + i` of the
      concatenation, reindexed to its columns. */
  lemma {:induction false} ConcatAllRow(fs: seq<Table>, f: nat, i: nat)
    requires f < |fs| && i < |fs[f].rows|
    requires fs[f].rows[i].Keys <= ColSet(fs[f].columns)
    ensures HoldsRowAt(ConcatAll(fs), TotalRows(fs[..f]) + i, fs[f].rows[i])
    decreases |fs|, 1
  {
    if f < |fs| - 1 {
      ConcatAllEarlierRow(fs, f, i);
    } else {
      ConcatAllLastRow(fs, f, i);
    }
  }

  /** Concatenating CSV frames gives a well-formed all-text table holding every
      source column and every source row, frame after frame, each row reindexed
      to the union of the columns with nulls for the cells it lacks. */
  lemma ConcatAllSpec(fs: seq<Table>)
    requires forall i :: 0 <= i < |fs| ==> CsvFrame(fs[i])
    ensures CsvFrame(ConcatAll(fs))
    ensures ColSet(ConcatAll(fs).columns) == AllColumns(fs)
    ensures |ConcatAll(fs).rows| == TotalRows(fs)
    ensures forall f, i :: 0 <= f < |fs| && 0 <= i < |fs[f].rows| ==>
      HoldsRowAt(ConcatAll(fs), TotalRows(fs[..f]) + i, fs[f].rows[i])
  {
    ConcatAllShape(fs);
    forall f, i | 0 <= f < |fs| && 0 <= i < |fs[f].rows|
      ensures HoldsRowAt(ConcatAll(fs), TotalRows(fs[..f]) + i, fs[f].rows[i])
    {
      assert fs[f].rows[i] in fs[f].rows;
      ConcatAllRow(fs, f, i);
    }
  }

  // ---------------------------------------------------------------- date parsing

  /** `pd.to_datetime(errors="coerce")` on one cell: text `parse` rejects becomes null. */
  function ParseCell(c: Cell, parse: string -> Option<Timestamp>): (p: Cell)
    ensures IsStamp(c) ==> p == c
    ensures IsText(c) ==> IsStamp(p)
    ensures forall s :: c == Some(Text(s)) ==>
      (p.None? <==> parse(s).None?) && (parse(s).Some? ==> p == Some(Stamp(parse(s).value)))
  {
    match c
    case Some(Text(s)) => (match parse(s) case Some(t) => Some(Stamp(t)) case None => None)
    case _ => c
  }

  function ParseColumn(t: Table, col: ColName, parse: string -> Option<Timestamp>): Table
  {
    if col in t.columns then
      Table(t.columns, seq(|t.rows|, i requires 0 <= i < |t.rows| =>
        var r := t.rows[i]; if col in r then r[col := ParseCell(r[col], parse)] else r))
    else t
  }

  /** The date-parsing loop of `load_data`, over the first `|cols|` date columns. */
  function ParseDates(t: Table, cols: seq<ColName>, parse: string -> Option<Timestamp>): Table
  {
    if cols == [] then t
    else ParseColumn(ParseDates(t, cols[..|cols| - 1], parse), cols[|cols| - 1], parse)
  }

  /** Parsing converts exactly the listed columns, cell by cell, and changes nothing else. */
  lemma {:induction false} ParseDatesSpec(t: Table, cols: seq<ColName>, parse: string -> Option<Timestamp>)
    requires CsvFrame(t)
    ensures ParseDates(t, cols, parse).columns == t.columns
    ensures |ParseDates(t, cols, parse).rows| == |t.rows|
    ensures forall i :: 0 <= i < |t.rows| ==> ParseDates(t, cols, parse).rows[i].Keys == t.rows[i].Keys
    ensures forall i, c :: 0 <= i < |t.rows| && c in t.rows[i] ==>
      ParseDates(t, cols, parse).rows[i][c] == if c in cols then ParseCell(t.rows[i][c], parse) else t.rows[i][c]
  {
    if cols != [] {
      var init := cols[..|cols| - 1];
      var col := cols[|cols| - 1];
      ParseDatesSpec(t, init, parse);
      var p := ParseDates(t, init, parse);
      forall i, c | 0 <= i < |t.rows| && c in t.rows[i]
        ensures ParseDates(t, cols, parse).rows[i][c] == if c in cols then ParseCell(t.rows[i][c], parse) else t.rows[i][c]
      {
        assert t.rows[i] in t.rows;
        assert c in cols <==> c in init || c == col;
        assert IsText(t.rows[i][c]);
        if c == col {
          assert col in t.columns;
        }
      }
    }
  }

  // ---------------------------------------------------------------- sorting

  /** Value order: strings as Python compares them, timestamps chronologically. */
  predicate ValueLe(x: Value, y: Value)
  {
    match (x, y)
    case (Text(a), Text(b)) => StrLe(a, b)
    case (Stamp(a), Stamp(b)) => a <= b
    case (Text(_), Stamp(_)) => true
    case (Stamp(_), Text(_)) => false
  }

  /** `sort_values(na_position="last")`: nulls after every value. */
  predicate CellLe(x: Cell, y: Cell)
  {
    y.None? || (x.Some? && ValueLe(x.value, y.value))
  }

  /** Lexicographic order of two rows on the key columns `cols`. */
  predicate RowLe(cols: seq<ColName>, a: Row, b: Row)
    decreases |cols|
  {
    if cols == [] then true
    else
      var x, y := CellOf(a, cols[0]), CellOf(b, cols[0]);
      if CellLe(x, y) && CellLe(y, x) then RowLe(cols[1..], a, b) else CellLe(x, y)
  }

  function RowOrder(cols: seq<ColName>): (Row, Row) -> bool
  {
    (a, b) => RowLe(cols, a, b)
  }

  lemma CellLeTotal(x: Cell, y: Cell)
    ensures CellLe(x, y) || CellLe(y, x)
  {
    if x.Some? && y.Some? && x.value.Text? && y.value.Text? {
      StrLeTotal(x.value.s, y.value.s);
    }
  }

  lemma CellLeTransitive(x: Cell, y: Cell, z: Cell)
    requires CellLe(x, y) && CellLe(y, z)
    ensures CellLe(x, z)
  {
    if x.Some? && y.Some? && z.Some? && x.value.Text? && y.value.Text? && z.value.Text? {
      StrLeTransitive(x.value.s, y.value.s, z.value.s);
    }
  }

  lemma {:induction false} RowLeTotal(cols: seq<ColName>, a: Row, b: Row)
    ensures RowLe(cols, a, b) || RowLe(cols, b, a)
    decreases |cols|
  {
    if cols != [] {
      CellLeTotal(CellOf(a, cols[0]), CellOf(b, cols[0]));
      RowLeTotal(cols[1..], a, b);
    }
  }

  lemma {:induction false} RowLeTransitive(cols: seq<ColName>, a: Row, b: Row, c: Row)
    requires RowLe(cols, a, b) && RowLe(cols, b, c)
    ensures RowLe(cols, a, c)
    decreases |cols|
  {
    if cols != [] {
      var x, y, z := CellOf(a, cols[0]), CellOf(b, cols[0]), CellOf(c, cols[0]);
      CellLeTotal(x, y);
      CellLeTotal(y, z);
      CellLeTotal(x, z);
      if CellLe(x, y) && CellLe(y, z) {
        CellLeTransitive(x, y, z);
      }
      if CellLe(y, x) && CellLe(z, y) {
        CellLeTransitive(z, y, x);
      }
      if CellLe(z, x) && CellLe(x, y) {
        CellLeTransitive(z, x, y);
      }
      if CellLe(y, z) && CellLe(z, x) {
        CellLeTransitive(y, z, x);
      }
      if CellLe(x, y) && CellLe(y, x) && CellLe(y, z) && CellLe(z, y) {
        RowLeTransitive(cols[1..], a, b, c);
      }
    }
  }

  lemma RowOrderIsTotalPreorder(cols: seq<ColName>)
    ensures TotalPreorder(RowOrder(cols))
  {
    forall a, b ensures RowOrder(cols)(a, b) || RowOrder(cols)(b, a) {
      RowLeTotal(cols, a, b);
    }
    forall a, b, c | RowOrder(cols)(a, b) && RowOrder(cols)(b, c) ensures RowOrder(cols)(a, c) {
      RowLeTransitive(cols, a, b, c);
    }
  }

  /** `df.sort_values(cols)`. */
  function SortRows(t: Table, cols: seq<ColName>): Table
  {
    Table(t.columns, InsertionSort(t.rows, RowOrder(cols)))
  }

  // ---------------------------------------------------------------- projection

  /** `[c for c in keep if c in cols]`. */
  function Present(keep: seq<ColName>, cols: seq<ColName>): seq<ColName>
  {
    if keep == [] then [] else (if keep[0] in cols then [keep[0]] else []) + Present(keep[1..], cols)
  }

  /** The position of the first `x` in `s`. */
  function IndexOf(s: seq<ColName>, x: ColName): (k: nat)
    requires x in s
    ensures k < |s| && s[k] == x
  {
    if s[0] == x then 0 else 1 + IndexOf(s[1..], x)
  }

  /** A column is kept exactly when it is listed and present. */
  lemma {:induction false} PresentMembers(keep: seq<ColName>, cols: seq<ColName>)
    ensures forall c :: c in Present(keep, cols) <==> c in keep && c in cols
  {
    if keep != [] {
      PresentMembers(keep[1..], cols);
      assert keep == [keep[0]] + keep[1..];
    }
  }

  /** In a list without repeats, a column of the tail is not the head and sits
      one place further than in the tail. */
  lemma IndexOfTail(keep: seq<ColName>, x: ColName)
    requires keep != [] && Distinct(keep) && x in keep[1..]
    ensures x != keep[0] && IndexOf(keep, x) == 1 + IndexOf(keep[1..], x)
  {
    var k :| 0 <= k < |keep[1..]| && keep[1..][k] == x;
    assert keep[k + 1] == x;
  }

  /** Every column of `p` is listed in `keep`, and `p` follows the listed order. */
  predicate ListedOrder(p: seq<ColName>, keep: seq<ColName>)
  {
    (forall c :: c in p ==> c in keep) &&
    forall i, j :: 0 <= i < j < |p| ==> IndexOf(keep, p[i]) < IndexOf(keep, p[j])
  }

  /** Listed order in the tail of a list without repeats carries over to the
      whole list, with or without the head in front. */
  lemma ListedOrderCons(keep: seq<ColName>, rest: seq<ColName>)
    requires keep != [] && Distinct(keep) && ListedOrder(rest, keep[1..])
    ensures ListedOrder(rest, keep)
    ensures ListedOrder([keep[0]] + rest, keep)
  {
    forall x | x in rest ensures x in keep && IndexOf(keep, x) == 1 + IndexOf(keep[1..], x) {
      IndexOfTail(keep, x);
    }
    var p := [keep[0]] + rest;
    forall i, j | 0 <= i < j < |p| ensures IndexOf(keep, p[i]) < IndexOf(keep, p[j]) {
      assert p[j] == rest[j - 1];
      if i > 0 {
        assert p[i] == rest[i - 1];
      }
    }
  }

  /** From a list without repeats, the kept columns keep the listed order. */
  lemma {:induction false} PresentOrdered(keep: seq<ColName>, cols: seq<ColName>)
    requires Distinct(keep)
    ensures ListedOrder(Present(keep, cols), keep)
  {
    if keep != [] {
      assert Distinct(keep[1..]);
      PresentOrdered(keep[1..], cols);
      ListedOrderCons(keep, Present(keep[1..], cols));
      if keep[0] in cols {
        assert Present(keep, cols) == [keep[0]] + Present(keep[1..], cols);
      } else {
        assert Present(keep, cols) == Present(keep[1..], cols);
      }
    }
  }

  /** The kept columns are exactly the listed ones that are present, without
      repeats, in the listed order. */
  lemma PresentSpec(keep: seq<ColName>, cols: seq<ColName>)
    ensures forall c :: c in Present(keep, cols) <==> c in keep && c in cols
    ensures Distinct(keep) ==> Distinct(Present(keep, cols))
    ensures Distinct(keep) ==> forall i, j :: 0 <= i < j < |Present(keep, cols)| ==>
      IndexOf(keep, Present(keep, cols)[i]) < IndexOf(keep, Present(keep, cols)[j])
  {
    PresentMembers(keep, cols);
    if Distinct(keep) {
      PresentOrdered(keep, cols);
    }
  }

  /** `Present` depends only on which of the listed columns are present. */
  lemma {:induction false} PresentCongruent(keep: seq<ColName>, a: seq<ColName>, b: seq<ColName>)
    requires forall c :: c in keep ==> (c in a <==> c in b)
    ensures Present(keep, a) == Present(keep, b)
  {
    if keep != [] {
      PresentCongruent(keep[1..], a, b);
    }
  }

  /** `r` restricted to the columns `cols`. */
  function Restrict(r: Row, cols: seq<ColName>): Row
  {
    map c | c in cols && c in r :: r[c]
  }

  function RestrictAll(rows: seq<Row>, cols: seq<ColName>): (p: seq<Row>)
    ensures |p| == |rows|
  {
    seq(|rows|, i requires 0 <= i < |rows| => Restrict(rows[i], cols))
  }

  /** `t[[c for c in keep if c in t.columns]]`. */
  function Project(t: Table, keep: seq<ColName>): Table
  {
    var cols := Present(keep, t.columns);
    Table(cols, RestrictAll(t.rows, cols))
  }

  /** Projection keeps every row and, in each, exactly the kept columns with
      their cells unchanged. */
  lemma ProjectSpec(t: Table, keep: seq<ColName>)
    requires WellFormed(t) && Distinct(keep)
    ensures WellFormed(Project(t, keep))
    ensures forall c :: c in Project(t, keep).columns <==> c in keep && c in t.columns
    ensures |Project(t, keep).rows| == |t.rows|
    ensures forall i, c :: 0 <= i < |t.rows| && c in Project(t, keep).rows[i] ==>
      Project(t, keep).rows[i][c] == t.rows[i][c]
  {
    var cols := Present(keep, t.columns);
    PresentSpec(keep, t.columns);
    forall r | r in Project(t, keep).rows ensures r.Keys == ColSet(cols) {
      var i :| 0 <= i < |t.rows| && Project(t, keep).rows[i] == r;
      assert t.rows[i] in t.rows;
    }
  }

  lemma {:induction false} RestrictKeepsOrder(sc: seq<ColName>, cs: seq<ColName>, a: Row, b: Row)
    requires forall c :: c in sc ==> c in cs
    ensures RowLe(sc, Restrict(a, cs), Restrict(b, cs)) == RowLe(sc, a, b)
    decreases |sc|
  {
    if sc != [] {
      assert CellOf(Restrict(a, cs), sc[0]) == CellOf(a, sc[0]);
      assert CellOf(Restrict(b, cs), sc[0]) == CellOf(b, sc[0]);
      RestrictKeepsOrder(sc[1..], cs, a, b);
    }
  }

  /** Dropping columns other than the sort keys keeps a sorted sequence sorted. */
  lemma RestrictKeepsSorted(s: seq<Row>, sc: seq<ColName>, cs: seq<ColName>)
    requires forall c :: c in sc ==> c in cs
    requires SortedBy(s, RowOrder(sc))
    ensures SortedBy(RestrictAll(s, cs), RowOrder(sc))
  {
    forall i, j | 0 <= i < j < |s|
      ensures RowOrder(sc)(RestrictAll(s, cs)[i], RestrictAll(s, cs)[j])
    {
      RestrictKeepsOrder(sc, cs, s[i], s[j]);
    }
  }

  /** Projection of a row followed by more rows. */
  lemma RestrictAllCons(x: Row, s: seq<Row>, cs: seq<ColName>)
    ensures RestrictAll([x] + s, cs) == [Restrict(x, cs)] + RestrictAll(s, cs)
  {
  }

  lemma {:induction false} InsertRestrict(x: Row, s: seq<Row>, le: (Row, Row) -> bool, cs: seq<ColName>)
    ensures multiset(RestrictAll(Insert(x, s, le), cs)) == multiset(RestrictAll(s, cs)) + multiset{Restrict(x, cs)}
  {
    if s == [] {
      RestrictAllCons(x, [], cs);
    } else if le(x, s[0]) {
      RestrictAllCons(x, s, cs);
    } else {
      var tail := Insert(x, s[1..], le);
      InsertRestrict(x, s[1..], le, cs);
      RestrictAllCons(s[0], tail, cs);
      RestrictAllCons(s[0], s[1..], cs);
      assert s == [s[0]] + s[1..];
    }
  }

  /** Sorting then projecting keeps the projected rows, each as often. */
  lemma {:induction false} SortRestrict(s: seq<Row>, le: (Row, Row) -> bool, cs: seq<ColName>)
    ensures multiset(RestrictAll(InsertionSort(s, le), cs)) == multiset(RestrictAll(s, cs))
  {
    if s != [] {
      SortRestrict(s[1..], le, cs);
      InsertRestrict(s[0], InsertionSort(s[1..], le), le, cs);
      RestrictAllCons(s[0], s[1..], cs);
      assert s == [s[0]] + s[1..];
    }
  }
}
