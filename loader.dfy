/** `load_data`: builds the event-log table once from the rows read out of the
    CSV files and keeps it in a process-wide cache. */
module Loader {
  import opened Wrappers
  import opened Orders
  import opened Calendar
  import opened Tables

  /** `FileNotFoundError`: the data directory holds no CSV file. */
  datatype LoadError = NoCsvFiles

  /** The table `load_data` builds from the frames of the CSV files: concatenated,
      date columns parsed, sorted by the present sort columns, projected onto
      the present wanted columns. */
  function BuildTable(sources: seq<Table>, parse: string -> Option<Timestamp>): Table
  {
    var df := ParseDates(ConcatAll(sources), DateCols, parse);
    var sortCols := Present(SortCols, df.columns);
    var sorted := if sortCols != [] then SortRows(df, sortCols) else df;
    Project(sorted, WantedCols)
  }

  /** What every cached table satisfies: well-formed, typed, its columns a
      subsequence of the wanted ones, its rows in (well, event, start) order. */
  predicate Loaded(t: Table)
  {
    && WellFormed(t)
    && Typed(t)
    && t.columns == Present(WantedCols, t.columns)
    && SortedBy(t.rows, RowOrder(Present(SortCols, t.columns)))
  }

  lemma WantedColsDistinct()
    ensures Distinct(WantedCols)
  {
  }

  /** A row of the projected table comes from a parsed row: it has exactly the
      kept columns, date cells hold timestamps and the others text. */
  lemma ProjectedRowTyped(src: Row, cs: seq<ColName>, raw: Row, parse: string -> Option<Timestamp>)
    requires forall c :: c in raw ==> IsText(raw[c])
    requires src.Keys == raw.Keys && forall c :: c in cs ==> c in raw
    requires forall c :: c in raw ==> src[c] == if c in DateCols then ParseCell(raw[c], parse) else raw[c]
    ensures Restrict(src, cs).Keys == ColSet(cs)
    ensures forall c :: c in Restrict(src, cs) ==>
      if c in DateCols then IsStamp(Restrict(src, cs)[c]) else IsText(Restrict(src, cs)[c])
  {
  }

  /** The concatenated frames with their date columns parsed. */
  function Parsed(sources: seq<Table>, parse: string -> Option<Timestamp>): Table
  {
    ParseDates(ConcatAll(sources), DateCols, parse)
  }

  lemma BuiltRows(sources: seq<Table>, parse: string -> Option<Timestamp>)
    ensures BuildTable(sources, parse).columns == Present(WantedCols, Parsed(sources, parse).columns)
    ensures multiset(BuildTable(sources, parse).rows)
         == multiset(RestrictAll(Parsed(sources, parse).rows, BuildTable(sources, parse).columns))
  {
    var df := Parsed(sources, parse);
    var sc := Present(SortCols, df.columns);
    var cs := Present(WantedCols, df.columns);
    SortRestrict(df.rows, RowOrder(sc), cs);
  }

  lemma BuiltSorted(sources: seq<Table>, parse: string -> Option<Timestamp>)
    ensures SortedBy(BuildTable(sources, parse).rows, RowOrder(Present(SortCols, BuildTable(sources, parse).columns)))
  {
    var df := Parsed(sources, parse);
    var sc := Present(SortCols, df.columns);
    var cs := Present(WantedCols, df.columns);
    PresentSpec(WantedCols, df.columns);
    PresentCongruent(SortCols, cs, df.columns);
    if sc != [] {
      RowOrderIsTotalPreorder(sc);
      SortSpec(df.rows, RowOrder(sc));
      PresentSpec(SortCols, df.columns);
      RestrictKeepsSorted(InsertionSort(df.rows, RowOrder(sc)), sc, cs);
    }
  }

  lemma BuiltTyped(sources: seq<Table>, parse: string -> Option<Timestamp>)
    requires forall i :: 0 <= i < |sources| ==> CsvFrame(sources[i])
    ensures WellFormed(BuildTable(sources, parse)) && Typed(BuildTable(sources, parse))
  {
    var raw := ConcatAll(sources);
    ConcatAllSpec(sources);
    var df := Parsed(sources, parse);
    ParseDatesSpec(raw, DateCols, parse);
    var cs := Present(WantedCols, df.columns);
    var t := BuildTable(sources, parse);
    BuiltRows(sources, parse);
    WantedColsDistinct();
    PresentSpec(WantedCols, df.columns);
    forall r | r in t.rows
      ensures r.Keys == ColSet(cs)
      ensures forall c :: c in r ==> if c in DateCols then IsStamp(r[c]) else IsText(r[c])
    {
      assert r in multiset(RestrictAll(df.rows, cs));
      var i :| 0 <= i < |df.rows| && RestrictAll(df.rows, cs)[i] == r;
      assert raw.rows[i] in raw.rows;
      ProjectedRowTyped(df.rows[i], cs, raw.rows[i], parse);
    }
  }

  /** The built table is a loaded table holding exactly the present wanted
      columns and, projected onto them, every parsed source row once. */
  lemma BuildTableSpec(sources: seq<Table>, parse: string -> Option<Timestamp>)
    requires forall i :: 0 <= i < |sources| ==> CsvFrame(sources[i])
    ensures Loaded(BuildTable(sources, parse))
    ensures forall c :: c in BuildTable(sources, parse).columns <==> c in WantedCols && c in AllColumns(sources)
    ensures multiset(BuildTable(sources, parse).rows)
         == multiset(RestrictAll(Parsed(sources, parse).rows, BuildTable(sources, parse).columns))
    ensures |BuildTable(sources, parse).rows| == TotalRows(sources)
  {
    var df := Parsed(sources, parse);
    var t := BuildTable(sources, parse);
    ConcatAllSpec(sources);
    ParseDatesSpec(ConcatAll(sources), DateCols, parse);
    BuiltRows(sources, parse);
    BuiltSorted(sources, parse);
    BuiltTyped(sources, parse);
    PresentSpec(WantedCols, df.columns);
    PresentCongruent(WantedCols, t.columns, df.columns);
    assert |multiset(t.rows)| == |multiset(RestrictAll(df.rows, t.columns))|;
  }

  /** The cache behind `load_data` (`_df_global`). */
  class TableCache {
    /** The table of the first successful load; `None` until then. */
    var table: Option<Table>

    ghost predicate Valid()
      reads this
    {
      table.Some? ==> Loaded(table.value)
    }

    constructor ()
      ensures Valid() && table == None
    {
      table := None;
    }

    /** `load_data()` over the frames read from the CSV files, `parse` standing
        for `pd.to_datetime(..., errors="coerce")` on one string. */
    method Load(sources: seq<Table>, parse: string -> Option<Timestamp>) returns (r: Result<Table, LoadError>)
      requires Valid()
      requires forall i :: 0 <= i < |sources| ==> CsvFrame(sources[i])
      modifies this
      ensures Valid()
      ensures old(table).Some? ==> r == Ok(old(table).value) && table == old(table)
      ensures old(table).None? && sources == [] ==> r == Err(NoCsvFiles) && table == None
      ensures old(table).None? && sources != [] ==>
        r == Ok(BuildTable(sources, parse)) && table == Some(BuildTable(sources, parse))
      ensures r.Ok? ==> table == Some(r.value) && Loaded(r.value)
    {
      if table.Some? {
        return Ok(table.value);
      }
      if |sources| == 0 {
        return Err(NoCsvFiles);
      }
      var df := Table([], []);
      var i := 0;
      while i < |sources|
        invariant 0 <= i <= |sources|
        invariant df == ConcatAll(sources[..i])
      {
        assert sources[..i + 1][..i] == sources[..i];
        df := Concat(df, sources[i]);
        i := i + 1;
      }
      assert sources[..|sources|] == sources;
      var k := 0;
      while k < |DateCols|
        invariant 0 <= k <= |DateCols|
        invariant df == ParseDates(ConcatAll(sources), DateCols[..k], parse)
      {
        assert DateCols[..k + 1][..k] == DateCols[..k];
        df := ParseColumn(df, DateCols[k], parse);
        k := k + 1;
      }
      assert DateCols[..|DateCols|] == DateCols;
      var sortCols := Present(SortCols, df.columns);
      if sortCols != [] {
        df := SortRows(df, sortCols);
      }
      df := Project(df, WantedCols);
      BuildTableSpec(sources, parse);
      table := Some(df);
      r := Ok(df);
    }
  }
}
