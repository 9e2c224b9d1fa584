/**
 * Keyed tables as the registry sees them: an ordered row index of sample
 * barcodes, and for every barcode in it a record mapping a column name to a
 * possibly missing value. This is the part of pandas' DataFrame behaviour the
 * registry relies on: reindexing, boolean row selection, column projection,
 * dropping incomplete rows and label-based slicing.
 */
module Tables {
  import opened Results

  type Barcode = string
  type Field = string

  /** A cell value: categorical labels are text; numeric cells are kept as integers. */
  datatype Value = Text(text: string) | Number(number: int)

  type Record = map<Field, Option<Value>>

  /**
   * `index` is the row order. It may list a barcode twice (reindexing by a
   * list with repeats does that); both positions then show the same record.
   */
  datatype Table = Table(columns: set<Field>, index: seq<Barcode>, rows: map<Barcode, Record>)

  /** Every indexed barcode has a record, and every record has exactly the table's columns. */
  ghost predicate WellFormed(t: Table) {
    && (forall id :: id in t.index ==> id in t.rows)
    && (forall id :: id in t.rows ==> id in t.index)
    && (forall id :: id in t.rows ==> t.rows[id].Keys == t.columns)
  }

  ghost predicate Distinct(s: seq<Barcode>) {
    forall i, j :: 0 <= i < j < |s| ==> s[i] != s[j]
  }

  /** A table loaded from a file: well formed, and no barcode indexes two rows. */
  ghost predicate Keyed(t: Table) {
    WellFormed(t) && Distinct(t.index)
  }

  /** `a` is `b` with some positions removed, the rest kept in order. */
  ghost predicate IsSubsequence(a: seq<Barcode>, b: seq<Barcode>)
    decreases |b|
  {
    if b == [] then a == []
    else (a != [] && a[0] == b[0] && IsSubsequence(a[1..], b[1..])) || IsSubsequence(a, b[1..])
  }

  lemma {:induction false} SubsequenceReflexive(a: seq<Barcode>)
    ensures IsSubsequence(a, a)
  {
    if a != [] {
      SubsequenceReflexive(a[1..]);
    }
  }

  lemma {:induction false} SubsequenceTransitive(a: seq<Barcode>, b: seq<Barcode>, c: seq<Barcode>)
    requires IsSubsequence(a, b) && IsSubsequence(b, c)
    ensures IsSubsequence(a, c)
    decreases |c|
  {
    if c != [] {
      if b != [] && b[0] == c[0] && IsSubsequence(b[1..], c[1..]) {
        if a != [] && a[0] == b[0] && IsSubsequence(a[1..], b[1..]) {
          SubsequenceTransitive(a[1..], b[1..], c[1..]);
        } else {
          SubsequenceTransitive(a, b[1..], c[1..]);
        }
      } else {
        SubsequenceTransitive(a, b, c[1..]);
      }
    }
  }

  /** A row of all-missing values over the given columns. */
  function AllMissing(cols: set<Field>): (r: Record)
    ensures r.Keys == cols
    ensures forall f :: f in r ==> r[f] == None
  {
    map f | f in cols :: None
  }

  /**
   * `DataFrame.reindex(ids)`: one row per requested barcode, in the requested
   * order; a barcode the table lacks gets a row of missing values.
   */
  function Reindex(t: Table, ids: seq<Barcode>): (r: Table)
    ensures r.index == ids && r.columns == t.columns
    ensures forall id :: id in ids && id in t.rows ==> id in r.rows && r.rows[id] == t.rows[id]
    ensures forall id :: id in ids && id !in t.rows ==> id in r.rows && r.rows[id] == AllMissing(t.columns)
    ensures WellFormed(t) ==> WellFormed(r)
  {
    Table(t.columns, ids, map id | id in ids :: if id in t.rows then t.rows[id] else AllMissing(t.columns))
  }

  /** A row-selection test, as a boolean mask over one or more columns. */
  datatype Criterion =
    | MemberOf(field: Field, allowed: seq<Value>)   // `t[t[field].isin(allowed)]`
    | NoMissing(fields: set<Field>)                 // no missing value among `fields`

  predicate Satisfies(row: Record, c: Criterion) {
    match c
    case MemberOf(f, allowed) => f in row && row[f].Some? && row[f].value in allowed
    case NoMissing(fs) => forall f :: f in fs ==> f in row && row[f].Some?
  }

  predicate SatisfiesAll(row: Record, cs: seq<Criterion>) {
    forall i :: 0 <= i < |cs| ==> Satisfies(row, cs[i])
  }

  lemma SatisfiesAllConcat(row: Record, cs: seq<Criterion>, ds: seq<Criterion>)
    ensures SatisfiesAll(row, cs + ds) <==> SatisfiesAll(row, cs) && SatisfiesAll(row, ds)
  {
    assert forall i :: 0 <= i < |cs| ==> (cs + ds)[i] == cs[i];
    assert forall i :: 0 <= i < |ds| ==> (cs + ds)[|cs| + i] == ds[i];
  }

  lemma SatisfiesAllSingle(c: Criterion)
    ensures forall row :: SatisfiesAll(row, [c]) <==> Satisfies(row, c)
  {
    forall row ensures SatisfiesAll(row, [c]) <==> Satisfies(row, c) {
      assert [c][0] == c;
    }
  }

  predicate Keeps(rows: map<Barcode, Record>, cs: seq<Criterion>, id: Barcode) {
    id in rows && SatisfiesAll(rows[id], cs)
  }

  /** The barcodes of `ids` whose record passes every criterion, in their order. */
  function SelectIds(ids: seq<Barcode>, rows: map<Barcode, Record>, cs: seq<Criterion>): seq<Barcode>
  {
    if ids == [] then []
    else (if Keeps(rows, cs, ids[0]) then [ids[0]] else []) + SelectIds(ids[1..], rows, cs)
  }

  lemma {:induction false} SelectIdsMembers(ids: seq<Barcode>, rows: map<Barcode, Record>, cs: seq<Criterion>)
    ensures forall id :: id in SelectIds(ids, rows, cs) <==> id in ids && Keeps(rows, cs, id)
  {
    if ids != [] {
      SelectIdsMembers(ids[1..], rows, cs);
      assert ids == [ids[0]] + ids[1..];
    }
  }

  /** Each barcode is kept as many times as the input lists it when its record passes, and not at all otherwise. */
  lemma {:induction false} SelectIdsCount(ids: seq<Barcode>, rows: map<Barcode, Record>, cs: seq<Criterion>)
    ensures forall id :: multiset(SelectIds(ids, rows, cs))[id] == if Keeps(rows, cs, id) then multiset(ids)[id] else 0
  {
    if ids != [] {
      SelectIdsCount(ids[1..], rows, cs);
      assert ids == [ids[0]] + ids[1..];
    }
  }

  lemma {:induction false} SelectIdsSubsequence(ids: seq<Barcode>, rows: map<Barcode, Record>, cs: seq<Criterion>)
    ensures IsSubsequence(SelectIds(ids, rows, cs), ids)
  {
    if ids != [] {
      SelectIdsSubsequence(ids[1..], rows, cs);
      var rest := SelectIds(ids[1..], rows, cs);
      var a := SelectIds(ids, rows, cs);
      if Keeps(rows, cs, ids[0]) {
        assert a == [ids[0]] + rest;
        assert a[0] == ids[0] && a[1..] == rest;
      } else {
        assert a == rest;
      }
    }
  }

  lemma {:induction false} SelectIdsDistinct(ids: seq<Barcode>, rows: map<Barcode, Record>, cs: seq<Criterion>)
    ensures Distinct(ids) ==> Distinct(SelectIds(ids, rows, cs))
  {
    if ids != [] && Distinct(ids) {
      assert Distinct(ids[1..]) by {
        forall i, j | 0 <= i < j < |ids[1..]| ensures ids[1..][i] != ids[1..][j] {
          assert ids[1..][i] == ids[i + 1] && ids[1..][j] == ids[j + 1];
        }
      }
      SelectIdsDistinct(ids[1..], rows, cs);
      SelectIdsMembers(ids[1..], rows, cs);
      var rest := SelectIds(ids[1..], rows, cs);
      if Keeps(rows, cs, ids[0]) {
        assert ids[0] !in ids[1..] by {
          forall k | 0 <= k < |ids[1..]| ensures ids[1..][k] != ids[0] {
            assert ids[1..][k] == ids[k + 1];
          }
        }
        var s := [ids[0]] + rest;
        forall i, j | 0 <= i < j < |s| ensures s[i] != s[j] {
          if i == 0 {
            assert s[j] == rest[j - 1];
          } else {
            assert s[i] == rest[i - 1] && s[j] == rest[j - 1];
          }
        }
      }
    }
  }

  /** When every barcode passes, selection keeps the index as it is. */
  lemma {:induction false} SelectIdsAll(ids: seq<Barcode>, rows: map<Barcode, Record>, cs: seq<Criterion>)
    requires forall id :: id in ids ==> Keeps(rows, cs, id)
    ensures SelectIds(ids, rows, cs) == ids
  {
    if ids != [] {
      SelectIdsAll(ids[1..], rows, cs);
      assert ids == [ids[0]] + ids[1..];
    }
  }

  lemma {:induction false} SelectIdsCongruent(ids: seq<Barcode>, rows1: map<Barcode, Record>, cs1: seq<Criterion>,
                                              rows2: map<Barcode, Record>, cs2: seq<Criterion>)
    requires forall id :: id in ids ==> (Keeps(rows1, cs1, id) <==> Keeps(rows2, cs2, id))
    ensures SelectIds(ids, rows1, cs1) == SelectIds(ids, rows2, cs2)
  {
    if ids != [] {
      assert forall id :: id in ids[1..] ==> id in ids;
      SelectIdsCongruent(ids[1..], rows1, cs1, rows2, cs2);
    }
  }

  /** Selecting by `cs` and then by `ds` is selecting once by both. */
  lemma {:induction false} SelectIdsTwice(ids: seq<Barcode>, rows: map<Barcode, Record>, cs: seq<Criterion>, ds: seq<Criterion>)
    ensures SelectIds(SelectIds(ids, rows, cs), rows, ds) == SelectIds(ids, rows, cs + ds)
  {
    if ids != [] {
      SelectIdsTwice(ids[1..], rows, cs, ds);
      if ids[0] in rows {
        SatisfiesAllConcat(rows[ids[0]], cs, ds);
      }
      var rest := SelectIds(ids[1..], rows, cs);
      if Keeps(rows, cs, ids[0]) {
        var a := [ids[0]] + rest;
        assert SelectIds(ids, rows, cs) == a;
        assert a[0] == ids[0] && a[1..] == rest;
        assert SelectIds(a, rows, ds) == (if Keeps(rows, ds, ids[0]) then [ids[0]] else []) + SelectIds(rest, rows, ds);
      } else {
        assert SelectIds(ids, rows, cs) == rest;
        assert !Keeps(rows, cs + ds, ids[0]);
      }
      assert SelectIds(ids, rows, cs + ds) == (if Keeps(rows, cs + ds, ids[0]) then [ids[0]] else []) + SelectIds(ids[1..], rows, cs + ds);
    }
  }

  /** Selecting by fewer criteria can only keep more barcodes. */
  lemma SelectIdsWeaker(ids: seq<Barcode>, rows: map<Barcode, Record>, cs: seq<Criterion>, ds: seq<Criterion>)
    requires forall c :: c in ds ==> c in cs
    ensures forall id :: id in SelectIds(ids, rows, cs) ==> id in SelectIds(ids, rows, ds)
  {
    SelectIdsMembers(ids, rows, cs);
    SelectIdsMembers(ids, rows, ds);
    forall id, i | id in rows && SatisfiesAll(rows[id], cs) && 0 <= i < |ds|
      ensures Satisfies(rows[id], ds[i])
    {
      assert ds[i] in ds;
      assert ds[i] in cs;
      var j :| 0 <= j < |cs| && cs[j] == ds[i];
    }
  }

  /** Boolean row selection: the rows passing every criterion, in index order. */
  function Where(t: Table, cs: seq<Criterion>): (r: Table)
    ensures r.columns == t.columns
    ensures IsSubsequence(r.index, t.index)
    ensures forall id :: id in r.index <==> id in t.index && Keeps(t.rows, cs, id)
    ensures forall id :: id in r.rows ==> id in t.rows && r.rows[id] == t.rows[id] && SatisfiesAll(r.rows[id], cs)
    ensures Distinct(t.index) ==> Distinct(r.index)
    ensures WellFormed(t) ==> WellFormed(r)
  {
    SelectIdsMembers(t.index, t.rows, cs);
    SelectIdsSubsequence(t.index, t.rows, cs);
    SelectIdsDistinct(t.index, t.rows, cs);
    Table(t.columns, SelectIds(t.index, t.rows, cs),
          map id | id in t.rows && SatisfiesAll(t.rows[id], cs) :: t.rows[id])
  }

  /** Selection keeps every copy of a passing barcode the index lists, and no copy of any other. */
  lemma WhereCount(t: Table, cs: seq<Criterion>)
    ensures forall id :: multiset(Where(t, cs).index)[id] == if Keeps(t.rows, cs, id) then multiset(t.index)[id] else 0
  {
    SelectIdsCount(t.index, t.rows, cs);
  }

  /** An empty list of criteria selects every row of a well-formed table. */
  lemma WhereNothing(t: Table)
    requires WellFormed(t)
    ensures Where(t, []) == t
  {
    SelectIdsAll(t.index, t.rows, []);
    assert (map id | id in t.rows && SatisfiesAll(t.rows[id], []) :: t.rows[id]) == t.rows;
  }

  /** Successive selections are one conjunctive selection. */
  lemma WhereTwice(t: Table, cs: seq<Criterion>, ds: seq<Criterion>)
    ensures Where(Where(t, cs), ds) == Where(t, cs + ds)
  {
    var once := Where(t, cs);
    SelectIdsMembers(t.index, t.rows, cs);
    forall id | id in once.index
      ensures Keeps(once.rows, ds, id) <==> Keeps(t.rows, ds, id)
    {
      assert id in once.rows;
    }
    SelectIdsCongruent(once.index, once.rows, ds, t.rows, ds);
    SelectIdsTwice(t.index, t.rows, cs, ds);
    forall id | id in t.rows ensures SatisfiesAll(t.rows[id], cs + ds) <==> SatisfiesAll(t.rows[id], cs) && SatisfiesAll(t.rows[id], ds) {
      SatisfiesAllConcat(t.rows[id], cs, ds);
    }
    assert Where(once, ds).rows == Where(t, cs + ds).rows;
  }

  /** A record cut down to the given columns. */
  function Narrow(row: Record, cols: set<Field>): (r: Record)
    ensures r.Keys == row.Keys * cols
    ensures forall f :: f in r ==> r[f] == row[f]
  {
    map f | f in row && f in cols :: row[f]
  }

  /** The columns `DataFrame.filter(fields)` keeps: the requested ones the table has. */
  function ProjectedColumns(columns: set<Field>, fields: seq<Field>): (r: set<Field>)
    ensures forall f :: f in r <==> f in fields && f in columns
  {
    set f | f in fields && f in columns
  }

  /**
   * `DataFrame.filter(fields)`: keep the requested columns the table has,
   * silently skipping those it lacks; the rows and their order stay.
   */
  function Project(t: Table, fields: seq<Field>): (r: Table)
    ensures r.index == t.index && r.rows.Keys == t.rows.Keys
    ensures r.columns == ProjectedColumns(t.columns, fields) && r.columns <= t.columns
    ensures forall id :: id in r.rows ==> r.rows[id] == Narrow(t.rows[id], r.columns)
    ensures WellFormed(t) ==> WellFormed(r)
  {
    var kept := ProjectedColumns(t.columns, fields);
    Table(kept, t.index, map id | id in t.rows :: Narrow(t.rows[id], kept))
  }

  /** A projected row is complete in the kept columns exactly when the original row is. */
  lemma ProjectKeepsCompleteRows(t: Table, fields: seq<Field>)
    ensures var n := [NoMissing(ProjectedColumns(t.columns, fields))];
      SelectIds(t.index, Project(t, fields).rows, n) == SelectIds(t.index, t.rows, n)
  {
    var proj := Project(t, fields);
    var cols := proj.columns;
    var n := [NoMissing(cols)];
    forall id | id in t.index
      ensures Keeps(proj.rows, n, id) <==> Keeps(t.rows, n, id)
    {
      if id in t.rows {
        assert Satisfies(Narrow(t.rows[id], cols), NoMissing(cols)) <==> Satisfies(t.rows[id], NoMissing(cols));
        assert n[0] == NoMissing(cols);
      }
    }
    SelectIdsCongruent(t.index, proj.rows, n, t.rows, n);
  }

  /** `DataFrame.dropna(axis=0)`: drop every row with a missing value in any column. */
  function DropMissing(t: Table): (r: Table)
    ensures r.columns == t.columns
    ensures IsSubsequence(r.index, t.index)
    ensures forall id :: id in r.index <==> id in t.index && Keeps(t.rows, [NoMissing(t.columns)], id)
    ensures forall id :: id in r.rows ==> id in t.rows && r.rows[id] == t.rows[id]
    ensures forall id, f :: id in r.rows && f in r.columns ==> f in r.rows[id] && r.rows[id][f].Some?
    ensures WellFormed(t) ==> WellFormed(r)
  {
    SatisfiesAllSingle(NoMissing(t.columns));
    Where(t, [NoMissing(t.columns)])
  }

  /** Dropping incomplete rows keeps every copy of a complete row's barcode, and no copy of any other. */
  lemma DropMissingCount(t: Table)
    ensures forall id :: multiset(DropMissing(t).index)[id] ==
                         (if Keeps(t.rows, [NoMissing(t.columns)], id) then multiset(t.index)[id] else 0)
  {
    WhereCount(t, [NoMissing(t.columns)]);
  }

  /** Every barcode of `ids` has a row in `t`. */
  predicate Covers(t: Table, ids: seq<Barcode>) {
    forall id :: id in ids ==> id in t.rows
  }

  /** `t.loc[ids, :]` when every label is present: those rows, in that order. */
  function Slice(t: Table, ids: seq<Barcode>): (r: Table)
    requires Covers(t, ids)
    ensures r.index == ids && r.columns == t.columns
    ensures forall id :: id in ids ==> id in r.rows && r.rows[id] == t.rows[id]
    ensures WellFormed(t) ==> WellFormed(r)
  {
    Table(t.columns, ids, map id | id in ids :: t.rows[id])
  }
}
