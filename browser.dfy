/** The data logic of the `index` page: the well list, the per-well event
    summary (`groupby("event_id")`), the event labels and the detail table of
    one event. */
module Browser {
  import opened Wrappers
  import opened Orders
  import opened Calendar
  import opened Tables

  /** The columns shown in the detail table, in this order. */
  const DisplayCols: seq<ColName> := [
    "step_no", TimeFromCol, "time_to", "rig_name", "loc_fed_lease_no", WellCol,
    "activity_class_desc", "activity_code_desc", "activity_duration", "expr1",
    "activity_subcode2", StartCol, EndCol, "event_code", ObjectiveCol, "event_objective_2"]

  lemma DisplayColsDistinct()
    ensures Distinct(DisplayCols)
  {
  }

  function TextOf(c: Cell): Option<string>
  {
    match c
    case Some(Text(s)) => Some(s)
    case _ => None
  }

  function StampOf(c: Cell): Option<Timestamp>
  {
    match c
    case Some(Stamp(t)) => Some(t)
    case _ => None
  }

  function EventOf(r: Row): Option<string> { TextOf(CellOf(r, EventCol)) }
  function StartOf(r: Row): Option<Timestamp> { StampOf(CellOf(r, StartCol)) }
  function EndOf(r: Row): Option<Timestamp> { StampOf(CellOf(r, EndCol)) }
  function ObjectiveOf(r: Row): Option<string> { TextOf(CellOf(r, ObjectiveCol)) }

  /** `df[col] == v`: the cell is the text `v` (a null never matches). */
  predicate HasText(r: Row, col: ColName, v: string)
  {
    CellOf(r, col) == Some(Text(v))
  }

  // ---------------------------------------------------------------- filtering

  /** `rows[rows[col] == v]`, in table order. */
  function RowsWith(rows: seq<Row>, col: ColName, v: string): seq<Row>
  {
    if rows == [] then []
    else
      var last := rows[|rows| - 1];
      RowsWith(rows[..|rows| - 1], col, v) + (if HasText(last, col, v) then [last] else [])
  }

  /** The filter keeps each matching row as often as it occurs and drops every other row. */
  lemma {:induction false} RowsWithSpec(rows: seq<Row>, col: ColName, v: string)
    ensures forall r :: multiset(RowsWith(rows, col, v))[r] == if HasText(r, col, v) then multiset(rows)[r] else 0
  {
    if rows != [] {
      RowsWithSpec(rows[..|rows| - 1], col, v);
      assert rows == rows[..|rows| - 1] + [rows[|rows| - 1]];
    }
  }

  lemma RowsWithMembers(rows: seq<Row>, col: ColName, v: string)
    ensures forall r :: r in RowsWith(rows, col, v) <==> r in rows && HasText(r, col, v)
  {
  }

  lemma RowsWithNone(rows: seq<Row>, col: ColName, v: string)
    ensures (forall i :: 0 <= i < |rows| ==> !HasText(rows[i], col, v)) ==> RowsWith(rows, col, v) == []
  {
  }

  // ---------------------------------------------------------------- well list

  /** `df[col].dropna()` on a text column. */
  function NonNull(rows: seq<Row>, col: ColName): seq<string>
  {
    if rows == [] then []
    else (match TextOf(CellOf(rows[0], col)) case Some(s) => [s] case None => []) + NonNull(rows[1..], col)
  }

  lemma {:induction false} NonNullSpec(rows: seq<Row>, col: ColName)
    ensures forall s :: s in NonNull(rows, col) <==> exists i :: 0 <= i < |rows| && HasText(rows[i], col, s)
  {
    if rows != [] {
      NonNullSpec(rows[1..], col);
      forall s ensures s in NonNull(rows, col) <==> exists i :: 0 <= i < |rows| && HasText(rows[i], col, s) {
        if s in NonNull(rows[1..], col) {
          var i :| 0 <= i < |rows[1..]| && HasText(rows[1..][i], col, s);
          assert HasText(rows[i + 1], col, s);
        }
        if i :| 0 <= i < |rows| && HasText(rows[i], col, s) {
          if i > 0 {
            assert HasText(rows[1..][i - 1], col, s);
          }
        }
      }
    }
  }

  /** `.unique()`: the first occurrence of each value, in order. */
  function Unique(xs: seq<string>): seq<string>
  {
    if xs == [] then []
    else
      var init := xs[..|xs| - 1];
      if xs[|xs| - 1] in init then Unique(init) else Unique(init) + [xs[|xs| - 1]]
  }

  lemma {:induction false} UniqueSpec(xs: seq<string>)
    ensures Distinct(Unique(xs))
    ensures forall s :: s in Unique(xs) <==> s in xs
  {
    if xs != [] {
      var init := xs[..|xs| - 1];
      UniqueSpec(init);
      assert xs == init + [xs[|xs| - 1]];
    }
  }

  predicate StrictlyAscending(s: seq<string>)
  {
    forall i, j :: 0 <= i < j < |s| ==> StrLe(s[i], s[j]) && s[i] != s[j]
  }

  /** `sorted(values.unique())`. */
  function SortedUnique(xs: seq<string>): seq<string>
  {
    InsertionSort(Unique(xs), StrLe)
  }

  lemma SortedUniqueSpec(xs: seq<string>)
    ensures StrictlyAscending(SortedUnique(xs))
    ensures forall s :: s in SortedUnique(xs) <==> s in xs
  {
    UniqueSpec(xs);
    StrLeIsTotalPreorder();
    SortSpec(Unique(xs), StrLe);
    DistinctPermutation(Unique(xs), SortedUnique(xs));
    forall s ensures s in SortedUnique(xs) <==> s in Unique(xs) {
      assert s in SortedUnique(xs) <==> s in multiset(SortedUnique(xs));
      assert s in Unique(xs) <==> s in multiset(Unique(xs));
    }
  }

  /** `pozos = sorted(df["well_legal_name"].dropna().unique().tolist())`. */
  function WellList(t: Table): seq<string>
  {
    SortedUnique(NonNull(t.rows, WellCol))
  }

  /** The well list is ascending, free of repeats, and holds exactly the
      well names that occur in the table. */
  lemma WellListSpec(t: Table)
    ensures StrictlyAscending(WellList(t))
    ensures forall w :: w in WellList(t) <==> exists i :: 0 <= i < |t.rows| && HasText(t.rows[i], WellCol, w)
  {
    SortedUniqueSpec(NonNull(t.rows, WellCol));
    NonNullSpec(t.rows, WellCol);
  }

  // ---------------------------------------------------------------- aggregation

  /** The minimum of the non-null values of `xs`: null exactly when all are null. */
  ghost predicate IsMin(m: Option<Timestamp>, xs: seq<Option<Timestamp>>)
  {
    && (m.None? <==> forall i :: 0 <= i < |xs| ==> xs[i].None?)
    && (m.Some? ==> exists i :: 0 <= i < |xs| && xs[i] == m)
    && (m.Some? ==> forall i :: 0 <= i < |xs| && xs[i].Some? ==> m.value <= xs[i].value)
  }

  /** The maximum of the non-null values of `xs`: null exactly when all are null. */
  ghost predicate IsMax(m: Option<Timestamp>, xs: seq<Option<Timestamp>>)
  {
    && (m.None? <==> forall i :: 0 <= i < |xs| ==> xs[i].None?)
    && (m.Some? ==> exists i :: 0 <= i < |xs| && xs[i] == m)
    && (m.Some? ==> forall i :: 0 <= i < |xs| && xs[i].Some? ==> xs[i].value <= m.value)
  }

  /** The first non-null value of `xs`: null exactly when all are null. */
  ghost predicate IsFirst(o: Option<string>, xs: seq<Option<string>>)
  {
    && (o.None? <==> forall i :: 0 <= i < |xs| ==> xs[i].None?)
    && (o.Some? ==> exists i :: 0 <= i < |xs| && xs[i] == o && forall j :: 0 <= j < i ==> xs[j].None?)
  }

  function Starts(rows: seq<Row>): (xs: seq<Option<Timestamp>>)
    ensures |xs| == |rows| && forall i :: 0 <= i < |rows| ==> xs[i] == StartOf(rows[i])
  {
    seq(|rows|, i requires 0 <= i < |rows| => StartOf(rows[i]))
  }

  function Ends(rows: seq<Row>): (xs: seq<Option<Timestamp>>)
    ensures |xs| == |rows| && forall i :: 0 <= i < |rows| ==> xs[i] == EndOf(rows[i])
  {
    seq(|rows|, i requires 0 <= i < |rows| => EndOf(rows[i]))
  }

  function Objectives(rows: seq<Row>): (xs: seq<Option<string>>)
    ensures |xs| == |rows| && forall i :: 0 <= i < |rows| ==> xs[i] == ObjectiveOf(rows[i])
  {
    seq(|rows|, i requires 0 <= i < |rows| => ObjectiveOf(rows[i]))
  }

  /** pandas' `min` with `skipna`: a null never wins. */
  function MinOpt(a: Option<Timestamp>, b: Option<Timestamp>): Option<Timestamp>
  {
    if a.None? then b else if b.None? then a else Some(if a.value <= b.value then a.value else b.value)
  }

  /** pandas' `max` with `skipna`: a null never wins. */
  function MaxOpt(a: Option<Timestamp>, b: Option<Timestamp>): Option<Timestamp>
  {
    if a.None? then b else if b.None? then a else Some(if a.value >= b.value then a.value else b.value)
  }

  /** pandas' groupby `first`: the earliest non-null value. */
  function FirstOpt(a: Option<string>, b: Option<string>): Option<string>
  {
    if a.Some? then a else b
  }

  lemma MinStep(m: Option<Timestamp>, xs: seq<Option<Timestamp>>, x: Option<Timestamp>)
    requires IsMin(m, xs)
    ensures IsMin(MinOpt(m, x), xs + [x])
  {
    var ys := xs + [x];
    if MinOpt(m, x).Some? {
      if m.Some? && (x.None? || m.value <= x.value) {
        var i :| 0 <= i < |xs| && xs[i] == m;
        assert ys[i] == m;
      } else {
        assert ys[|xs|] == x;
      }
    }
  }

  lemma MaxStep(m: Option<Timestamp>, xs: seq<Option<Timestamp>>, x: Option<Timestamp>)
    requires IsMax(m, xs)
    ensures IsMax(MaxOpt(m, x), xs + [x])
  {
    var ys := xs + [x];
    if MaxOpt(m, x).Some? {
      if m.Some? && (x.None? || m.value >= x.value) {
        var i :| 0 <= i < |xs| && xs[i] == m;
        assert ys[i] == m;
      } else {
        assert ys[|xs|] == x;
      }
    }
  }

  lemma FirstStep(o: Option<string>, xs: seq<Option<string>>, x: Option<string>)
    requires IsFirst(o, xs)
    ensures IsFirst(FirstOpt(o, x), xs + [x])
  {
    var ys := xs + [x];
    if o.Some? {
      var i :| 0 <= i < |xs| && xs[i] == o && forall j :: 0 <= j < i ==> xs[j].None?;
      assert ys[i] == o && forall j :: 0 <= j < i ==> ys[j].None?;
    } else if x.Some? {
      assert ys[|xs|] == x;
    }
  }

  /** The running aggregate of one event's rows. */
  datatype Acc = Acc(start: Option<Timestamp>, end: Option<Timestamp>, objective: Option<string>)

  function Absorb(acc: Acc, r: Row): Acc
  {
    Acc(MinOpt(acc.start, StartOf(r)), MaxOpt(acc.end, EndOf(r)), FirstOpt(acc.objective, ObjectiveOf(r)))
  }

  /** `groupby("event_id").agg(min start, max end, first objective)` in one pass
      over the rows in table order; rows with a null `event_id` are dropped. */
  function Aggregate(rows: seq<Row>): map<string, Acc>
  {
    if rows == [] then map[]
    else
      var agg := Aggregate(rows[..|rows| - 1]);
      var r := rows[|rows| - 1];
      match EventOf(r)
      case None => agg
      case Some(id) => agg[id := Absorb(if id in agg then agg[id] else Acc(None, None, None), r)]
  }

  /** The rows of one event. */
  function Group(rows: seq<Row>, id: string): seq<Row>
  {
    RowsWith(rows, EventCol, id)
  }

  ghost predicate Summarises(a: Acc, g: seq<Row>)
  {
    IsMin(a.start, Starts(g)) && IsMax(a.end, Ends(g)) && IsFirst(a.objective, Objectives(g))
  }

  lemma GroupStep(rows: seq<Row>, id: string)
    requires rows != []
    ensures Group(rows, id) == Group(rows[..|rows| - 1], id)
      + (if EventOf(rows[|rows| - 1]) == Some(id) then [rows[|rows| - 1]] else [])
  {
  }

  /** The aggregated columns of a group with one more row. */
  lemma ColumnsSnoc(g: seq<Row>, r: Row)
    ensures Starts(g + [r]) == Starts(g) + [StartOf(r)]
    ensures Ends(g + [r]) == Ends(g) + [EndOf(r)]
    ensures Objectives(g + [r]) == Objectives(g) + [ObjectiveOf(r)]
  {
    assert Starts(g + [r]) == Starts(g) + [StartOf(r)];
    assert Ends(g + [r]) == Ends(g) + [EndOf(r)];
  }

  lemma SummarisesStep(a: Acc, g: seq<Row>, r: Row)
    requires Summarises(a, g)
    ensures Summarises(Absorb(a, r), g + [r])
  {
    ColumnsSnoc(g, r);
    MinStep(a.start, Starts(g), StartOf(r));
    MaxStep(a.end, Ends(g), EndOf(r));
    FirstStep(a.objective, Objectives(g), ObjectiveOf(r));
  }

  /** The one-pass aggregate has one key per non-null `event_id` of the rows,
      and for each the minimum start, the maximum end and the first objective
      of that event's rows. */
  lemma {:induction false} AggregateSpec(rows: seq<Row>)
    ensures forall id :: id in Aggregate(rows) <==> exists i :: 0 <= i < |rows| && EventOf(rows[i]) == Some(id)
    ensures forall id :: id in Aggregate(rows) ==> Summarises(Aggregate(rows)[id], Group(rows, id))
  {
    if rows != [] {
      var init, r := rows[..|rows| - 1], rows[|rows| - 1];
      AggregateSpec(init);
      var agg := Aggregate(init);
      forall id ensures id in Aggregate(rows) <==> exists i :: 0 <= i < |rows| && EventOf(rows[i]) == Some(id) {
        if id in agg {
          var i :| 0 <= i < |init| && EventOf(init[i]) == Some(id);
          assert rows[i] == init[i];
        }
        if i :| 0 <= i < |rows| && EventOf(rows[i]) == Some(id) {
          if i < |init| {
            assert EventOf(init[i]) == Some(id);
          }
        }
      }
      forall id | id in Aggregate(rows) ensures Summarises(Aggregate(rows)[id], Group(rows, id)) {
        GroupStep(rows, id);
        if EventOf(r) == Some(id) {
          if id !in agg {
            RowsWithNone(init, EventCol, id);
            assert Summarises(Acc(None, None, None), []);
            SummarisesStep(Acc(None, None, None), [], r);
          } else {
            SummarisesStep(agg[id], Group(init, id), r);
          }
        } else {
          assert Aggregate(rows)[id] == agg[id];
          assert Group(rows, id) == Group(init, id);
        }
      }
    }
  }

  // ---------------------------------------------------------------- event summary

  /** One row of `eventos_df`. */
  datatype Entry = Entry(eventId: string, start: Option<Timestamp>, end: Option<Timestamp>, objective: Option<string>)

  lemma EventIdsAggregated(rows: seq<Row>)
    ensures forall id :: id in SortedUnique(NonNull(rows, EventCol)) ==> id in Aggregate(rows)
  {
    SortedUniqueSpec(NonNull(rows, EventCol));
    NonNullSpec(rows, EventCol);
    AggregateSpec(rows);
    forall id | id in SortedUnique(NonNull(rows, EventCol)) ensures id in Aggregate(rows) {
      var i :| 0 <= i < |rows| && HasText(rows[i], EventCol, id);
      assert EventOf(rows[i]) == Some(id);
    }
  }

  /** The summary of the rows of one well: one entry per event, ordered by
      `event_id` (`groupby` sorts its keys). */
  function Summary(rows: seq<Row>): seq<Entry>
  {
    var agg := Aggregate(rows);
    var ids := SortedUnique(NonNull(rows, EventCol));
    EventIdsAggregated(rows);
    seq(|ids|, k requires 0 <= k < |ids| =>
      var a := agg[ids[k]]; Entry(ids[k], a.start, a.end, a.objective))
  }

  /** `df_pozo = df[df["well_legal_name"] == pozo_sel]`, summarised. */
  function EventSummary(t: Table, well: string): seq<Entry>
  {
    Summary(RowsWith(t.rows, WellCol, well))
  }

  /** The summary holds one entry per distinct non-null `event_id`, in strictly
      ascending order, each with the minimum start, maximum end and first
      objective of that event's rows. */
  lemma SummarySpec(rows: seq<Row>)
    ensures forall k, l :: 0 <= k < l < |Summary(rows)| ==>
      StrLe(Summary(rows)[k].eventId, Summary(rows)[l].eventId) && Summary(rows)[k].eventId != Summary(rows)[l].eventId
    ensures forall id :: (exists k :: 0 <= k < |Summary(rows)| && Summary(rows)[k].eventId == id)
                     <==> (exists i :: 0 <= i < |rows| && EventOf(rows[i]) == Some(id))
    ensures forall k :: 0 <= k < |Summary(rows)| ==>
      var e := Summary(rows)[k];
      Summarises(Acc(e.start, e.end, e.objective), Group(rows, e.eventId))
  {
    var ids := SortedUnique(NonNull(rows, EventCol));
    var s := Summary(rows);
    SortedUniqueSpec(NonNull(rows, EventCol));
    NonNullSpec(rows, EventCol);
    AggregateSpec(rows);
    assert forall k :: 0 <= k < |s| ==> s[k].eventId == ids[k];
    forall id ensures (exists k :: 0 <= k < |s| && s[k].eventId == id) <==> (exists i :: 0 <= i < |rows| && EventOf(rows[i]) == Some(id)) {
      if i :| 0 <= i < |rows| && EventOf(rows[i]) == Some(id) {
        assert HasText(rows[i], EventCol, id);
        assert id in ids;
        var k :| 0 <= k < |ids| && ids[k] == id;
        assert s[k].eventId == id;
      }
      if k :| 0 <= k < |s| && s[k].eventId == id {
        assert ids[k] in ids;
        var i :| 0 <= i < |rows| && HasText(rows[i], EventCol, id);
        assert EventOf(rows[i]) == Some(id);
      }
    }
  }

  // ---------------------------------------------------------------- labels

  /** `str()` of the objective: a missing one prints as "nan". */
  function ObjectiveText(o: Option<string>): string
  {
    match o
    case Some(s) => s
    case None => "nan"
  }

  /** `f"{event_id} | {start} → {end} | {objective}"` on already rendered parts. */
  function LabelText(id: string, start: string, end: string, objective: string): string
  {
    id + " | " + start + " → " + end + " | " + objective
  }

  /** The label of a summary entry, dates rendered by `fmt_fecha`. */
  function Label(e: Entry): string
  {
    LabelText(e.eventId, FormatDate(e.start), FormatDate(e.end), ObjectiveText(e.objective))
  }

  /** An option of the event selector. */
  datatype EventOption = EventOption(eventId: string, labelText: string)

  /** The loop that fills `eventos`, one option per summary entry, in order. */
  method EventOptions(entries: seq<Entry>) returns (opts: seq<EventOption>)
    ensures |opts| == |entries|
    ensures forall k :: 0 <= k < |entries| ==> opts[k] == EventOption(entries[k].eventId, Label(entries[k]))
  {
    opts := [];
    var k := 0;
    while k < |entries|
      invariant 0 <= k <= |entries|
      invariant |opts| == k
      invariant forall j :: 0 <= j < k ==> opts[j] == EventOption(entries[j].eventId, Label(entries[j]))
    {
      opts := opts + [EventOption(entries[k].eventId, Label(entries[k]))];
      k := k + 1;
    }
  }

  lemma LabelTextStart(id: string, a: string, b: string, end: string, objective: string)
    ensures LabelText(id, a, end, objective) == LabelText(id, b, end, objective) <==> a == b
  {
    var p, q := id + " | ", " → " + end + " | " + objective;
    assert LabelText(id, a, end, objective) == p + a + q;
    assert LabelText(id, b, end, objective) == p + b + q;
    if p + a + q == p + b + q {
      assert |a| == |b|;
      assert a == (p + a + q)[|p|..|p| + |a|];
      assert b == (p + b + q)[|p|..|p| + |b|];
    }
  }

  /** Two labels of the same event that differ only in the start date are equal
      exactly when both starts are missing or both fall on the same day. */
  lemma LabelStartDay(e: Entry, s: Option<Timestamp>)
    ensures Label(e) == Label(e.(start := s)) <==>
      (e.start.None? && s.None?) || (e.start.Some? && s.Some? && e.start.value / SecondsPerDay == s.value / SecondsPerDay)
  {
    LabelTextStart(e.eventId, FormatDate(e.start), FormatDate(s), FormatDate(e.end), ObjectiveText(e.objective));
    if e.start.Some? && s.Some? {
      FormatDateSameDay(e.start.value, s.value);
    } else if e.start.Some? {
      FormatDateSameDay(e.start.value, e.start.value);
    } else if s.Some? {
      FormatDateSameDay(s.value, s.value);
    }
  }

  // ---------------------------------------------------------------- detail

  /** The rows of one event of one well, in table order. */
  function EventRows(t: Table, well: string, event: string): seq<Row>
  {
    RowsWith(RowsWith(t.rows, WellCol, well), EventCol, event)
  }

  /** `df_evento`, sorted by `time_from` when that column exists, and projected
      onto the display columns that are present. */
  function Detail(t: Table, well: string, event: string): Table
  {
    Project(Table(t.columns, DetailOrder(t, well, event)), DisplayCols)
  }

  /** The event rows are exactly the table rows of that well and event, each as
      often as in the table. */
  lemma EventRowsSpec(t: Table, well: string, event: string)
    ensures forall r ::
      multiset(EventRows(t, well, event))[r] == (if HasText(r, WellCol, well) && HasText(r, EventCol, event) then multiset(t.rows)[r] else 0)
  {
    RowsWithSpec(t.rows, WellCol, well);
    RowsWithSpec(RowsWith(t.rows, WellCol, well), EventCol, event);
  }

  /** The event rows in display order, before projection. */
  function DetailOrder(t: Table, well: string, event: string): seq<Row>
  {
    var rows := EventRows(t, well, event);
    if TimeFromCol in t.columns then InsertionSort(rows, RowOrder([TimeFromCol])) else rows
  }

  lemma DetailOrderSpec(t: Table, well: string, event: string)
    requires WellFormed(t)
    ensures Detail(t, well, event) == Project(Table(t.columns, DetailOrder(t, well, event)), DisplayCols)
    ensures multiset(DetailOrder(t, well, event)) == multiset(EventRows(t, well, event))
    ensures WellFormed(Table(t.columns, DetailOrder(t, well, event)))
    ensures TimeFromCol in t.columns ==> SortedBy(DetailOrder(t, well, event), RowOrder([TimeFromCol]))
  {
    var rows := EventRows(t, well, event);
    var sorted := DetailOrder(t, well, event);
    EventRowsSpec(t, well, event);
    RowOrderIsTotalPreorder([TimeFromCol]);
    SortSpec(rows, RowOrder([TimeFromCol]));
    forall r | r in sorted ensures r.Keys == ColSet(t.columns) {
      assert r in multiset(rows);
      assert r in multiset(t.rows);
    }
  }

  /** Projecting the display order keeps the projected event rows, each as often. */
  lemma DetailRows(t: Table, well: string, event: string, cs: seq<ColName>)
    ensures multiset(RestrictAll(DetailOrder(t, well, event), cs)) == multiset(RestrictAll(EventRows(t, well, event), cs))
  {
    if TimeFromCol in t.columns {
      SortRestrict(EventRows(t, well, event), RowOrder([TimeFromCol]), cs);
    }
  }

  /** The detail table holds, projected onto the present display columns, exactly
      the rows of the selected well and event, each as often as in the table,
      in ascending `time_from` order. */
  lemma DetailSpec(t: Table, well: string, event: string)
    requires WellFormed(t)
    ensures WellFormed(Detail(t, well, event))
    ensures Detail(t, well, event).columns == Present(DisplayCols, t.columns)
    ensures multiset(Detail(t, well, event).rows)
         == multiset(RestrictAll(EventRows(t, well, event), Detail(t, well, event).columns))
    ensures TimeFromCol in t.columns ==> SortedBy(Detail(t, well, event).rows, RowOrder([TimeFromCol]))
  {
    var cs := Present(DisplayCols, t.columns);
    assert Detail(t, well, event) == Table(cs, RestrictAll(DetailOrder(t, well, event), cs));
    DetailShape(t, well, event);
    DetailRows(t, well, event, cs);
    if TimeFromCol in t.columns {
      DetailSorted(t, well, event);
    }
  }

  lemma DetailShape(t: Table, well: string, event: string)
    requires WellFormed(t)
    ensures WellFormed(Detail(t, well, event))
    ensures Detail(t, well, event).columns == Present(DisplayCols, t.columns)
  {
    DisplayColsDistinct();
    DetailOrderSpec(t, well, event);
    ProjectSpec(Table(t.columns, DetailOrder(t, well, event)), DisplayCols);
  }

  lemma DetailSorted(t: Table, well: string, event: string)
    requires WellFormed(t) && TimeFromCol in t.columns
    ensures SortedBy(Detail(t, well, event).rows, RowOrder([TimeFromCol]))
  {
    var sorted, cs := DetailOrder(t, well, event), Present(DisplayCols, t.columns);
    DetailOrderSpec(t, well, event);
    PresentSpec(DisplayCols, t.columns);
    RestrictKeepsSorted(sorted, [TimeFromCol], cs);
  }

  /** An event the selected well does not have gives an empty detail table, not an error. */
  lemma DetailOfAbsentEvent(t: Table, well: string, event: string)
    requires forall i :: 0 <= i < |t.rows| ==> !(HasText(t.rows[i], WellCol, well) && HasText(t.rows[i], EventCol, event))
    ensures Detail(t, well, event).rows == []
  {
    var rows := EventRows(t, well, event);
    EventRowsSpec(t, well, event);
    forall r ensures multiset(rows)[r] == 0 {
      if r in t.rows {
        var i :| 0 <= i < |t.rows| && t.rows[i] == r;
      }
    }
    assert multiset(rows) == multiset{};
  }

  /** Every event the selector lists for a well has at least one detail row. */
  lemma ListedEventHasDetail(t: Table, well: string, id: string)
    requires exists k :: 0 <= k < |EventSummary(t, well)| && EventSummary(t, well)[k].eventId == id
    ensures |Detail(t, well, id).rows| > 0
  {
    var wellRows := RowsWith(t.rows, WellCol, well);
    SummarySpec(wellRows);
    var i :| 0 <= i < |wellRows| && EventOf(wellRows[i]) == Some(id);
    assert HasText(wellRows[i], EventCol, id);
    RowsWithMembers(wellRows, EventCol, id);
    assert wellRows[i] in EventRows(t, well, id);
    var le := RowOrder([TimeFromCol]);
    RowOrderIsTotalPreorder([TimeFromCol]);
    SortSpec(EventRows(t, well, id), le);
  }

  // ---------------------------------------------------------------- page

  /** What `index` hands to the template. */
  datatype Page = Page(wells: seq<string>, events: seq<EventOption>, detail: Option<Table>, columns: seq<ColName>)

  /** The two ways `index` fails: the HTTP 500 text for missing key columns, and
      the `KeyError` `agg` raises for a missing aggregated column. */
  datatype PageError = MissingKeyColumns | MissingAggregateColumn

  /** A request argument counts only when present and non-empty (Python truthiness). */
  predicate Selected(arg: Option<string>)
  {
    arg.Some? && arg.value != ""
  }

  predicate KeyColumnsPresent(t: Table)
  {
    WellCol in t.columns && EventCol in t.columns
  }

  predicate AggregateColumnsPresent(t: Table)
  {
    StartCol in t.columns && EndCol in t.columns && ObjectiveCol in t.columns
  }

  /** The data logic of `index` on the loaded table and the `well` and `event`
      request arguments. */
  method Browse(t: Table, wellArg: Option<string>, eventArg: Option<string>) returns (r: Result<Page, PageError>)
    ensures !KeyColumnsPresent(t) ==> r == Err(MissingKeyColumns)
    ensures KeyColumnsPresent(t) && Selected(wellArg) && !AggregateColumnsPresent(t) ==> r == Err(MissingAggregateColumn)
    ensures r.Ok? <==> KeyColumnsPresent(t) && (Selected(wellArg) ==> AggregateColumnsPresent(t))
    ensures r.Ok? ==> r.value.wells == WellList(t)
    ensures r.Ok? && !Selected(wellArg) ==> r.value.events == [] && r.value.detail == None
    ensures r.Ok? && Selected(wellArg) ==>
      var entries := EventSummary(t, wellArg.value);
      && |r.value.events| == |entries|
      && (forall k :: 0 <= k < |entries| ==> r.value.events[k] == EventOption(entries[k].eventId, Label(entries[k])))
      && r.value.detail == if Selected(eventArg) then Some(Detail(t, wellArg.value, eventArg.value)) else None
    ensures r.Ok? ==> r.value.columns == if r.value.detail.Some? then r.value.detail.value.columns else DisplayCols
  {
    if !KeyColumnsPresent(t) {
      return Err(MissingKeyColumns);
    }
    var wells := WellList(t);
    var events: seq<EventOption> := [];
    var detail: Option<Table> := None;
    if Selected(wellArg) {
      if !AggregateColumnsPresent(t) {
        return Err(MissingAggregateColumn);
      }
      events := EventOptions(EventSummary(t, wellArg.value));
      if Selected(eventArg) {
        detail := Some(Detail(t, wellArg.value, eventArg.value));
      }
    }
    var columns := if detail.Some? then detail.value.columns else DisplayCols;
    r := Ok(Page(wells, events, detail, columns));
  }
}
