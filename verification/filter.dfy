/** The column-filter compiler of the rules explorer: the user picks columns,
    each numeric column gets an inclusive range (a slider that defaults to
    the column's observed minimum and maximum), each other column a pattern
    that the column's text must contain, and the frame is narrowed column by
    column. */
module ColumnFilter {
  import opened Seqs
  import opened Text
  import opened Table

  /** Whether pandas reports a column as numeric, which picks the widget. */
  datatype ColType = Numeric | Textual

  /** The widget value the user chose for one column. */
  datatype Constraint = Range(lo: real, hi: real) | Pattern(pattern: string)

  /** One entry of the "Filter dataframe on" multiselect with its widget value. */
  datatype Selection = Selection(column: Column, constraint: Constraint)

  /** Every selected column exists, and gets a slider exactly when it is numeric. */
  predicate WellTyped(schema: map<Column, ColType>, sels: seq<Selection>) {
    forall i :: 0 <= i < |sels| ==>
      sels[i].column in schema && (schema[sels[i].column] == Numeric <==> sels[i].constraint.Range?)
  }

  /** Whether `row` survives one selection. A range keeps numbers in
      `[lo, hi]` and drops missing cells (`Series.between`); a pattern keeps
      rows whose cell text contains the upper-cased pattern (the cell itself
      is not upper-cased), and an empty pattern keeps everything. */
  predicate Holds(row: Row, sel: Selection, fmt: Fmt): (b: bool)
    ensures sel.constraint.Range? ==>
      (b <==> exists x :: Cell(row, sel.column) == Num(x) && sel.constraint.lo <= x <= sel.constraint.hi)
    ensures sel.constraint.Range? && !Cell(row, sel.column).Num? ==> !b
    ensures sel.constraint.Pattern? ==>
      (b <==> sel.constraint.pattern == ""
              || exists i :: OccursAt(Str(Cell(row, sel.column), fmt), Upper(sel.constraint.pattern), i))
  {
    match sel.constraint
    case Range(lo, hi) => Cell(row, sel.column).Num? && lo <= Cell(row, sel.column).x <= hi
    case Pattern(p) =>
      var text := Str(Cell(row, sel.column), fmt);
      ContainsAt(text, Upper(p));
      assert Contains(text, Upper(p)) <==> exists i :: OccursAt(text, Upper(sel.constraint.pattern), i);
      p == "" || Contains(text, Upper(p))
  }

  /** `row` survives every selection. */
  predicate PassesAll(row: Row, sels: seq<Selection>, fmt: Fmt) {
    forall i :: 0 <= i < |sels| ==> Holds(row, sels[i], fmt)
  }

  /** `filter_dataframe`: narrows the frame by each selection in turn. */
  function FilterFrame(rows: seq<Row>, sels: seq<Selection>, fmt: Fmt): (r: seq<Row>)
    ensures |r| <= |rows|
    ensures forall row :: row in r <==> row in rows && PassesAll(row, sels, fmt)
    decreases |sels|
  {
    if sels == [] then rows
    else FilterFrame(Filter(row => Holds(row, sels[0], fmt), rows), sels[1..], fmt)
  }

  /** Narrowing column by column is one filter by the conjunction. */
  lemma {:induction false} FilterFrameIsOneFilter(rows: seq<Row>, sels: seq<Selection>, fmt: Fmt)
    ensures FilterFrame(rows, sels, fmt) == Filter(row => PassesAll(row, sels, fmt), rows)
    decreases |sels|
  {
    if sels == [] {
      FilterAll(row => PassesAll(row, sels, fmt), rows);
    } else {
      var head := row => Holds(row, sels[0], fmt);
      var rest := row => PassesAll(row, sels[1..], fmt);
      var all := row => PassesAll(row, sels, fmt);
      FilterFrameIsOneFilter(Filter(head, rows), sels[1..], fmt);
      forall row
        ensures all(row) == (head(row) && rest(row))
      {
        if head(row) && rest(row) {
          forall i | 0 <= i < |sels|
            ensures Holds(row, sels[i], fmt)
          {
            if i > 0 {
              assert sels[1..][i - 1] == sels[i];
            }
          }
        }
        if all(row) {
          forall i | 0 <= i < |sels[1..]|
            ensures Holds(row, sels[1..][i], fmt)
          {
            assert sels[1..][i] == sels[i + 1];
          }
        }
      }
      FilterFilter(head, rest, all, rows);
    }
  }

  /** The filtered frame keeps the original row order. */
  lemma FilterFrameKeepsOrder(rows: seq<Row>, sels: seq<Selection>, fmt: Fmt)
    ensures IsSubseq(FilterFrame(rows, sels, fmt), rows)
  {
    FilterFrameIsOneFilter(rows, sels, fmt);
    FilterIsSubseq(row => PassesAll(row, sels, fmt), rows);
  }

  /** Applying the same selections twice is applying them once. */
  lemma {:induction false} FilterFrameIdempotent(rows: seq<Row>, sels: seq<Selection>, fmt: Fmt)
    ensures FilterFrame(FilterFrame(rows, sels, fmt), sels, fmt) == FilterFrame(rows, sels, fmt)
  {
    FilterFrameIsOneFilter(rows, sels, fmt);
    FilterFrameIsOneFilter(FilterFrame(rows, sels, fmt), sels, fmt);
    FilterIdempotent(row => PassesAll(row, sels, fmt), rows);
  }

  /** Selecting one more column can only drop rows, never add or reorder them. */
  lemma FilterFrameNarrows(rows: seq<Row>, sels: seq<Selection>, sel: Selection, fmt: Fmt)
    ensures IsSubseq(FilterFrame(rows, sels + [sel], fmt), FilterFrame(rows, sels, fmt))
    ensures |FilterFrame(rows, sels + [sel], fmt)| <= |FilterFrame(rows, sels, fmt)|
  {
    var before := row => PassesAll(row, sels, fmt);
    var extra := row => Holds(row, sel, fmt);
    var after := row => PassesAll(row, sels + [sel], fmt);
    forall row
      ensures after(row) == (before(row) && extra(row))
    {
      if before(row) && extra(row) {
        forall i | 0 <= i < |sels + [sel]|
          ensures Holds(row, (sels + [sel])[i], fmt)
        {
          if i < |sels| {
            assert (sels + [sel])[i] == sels[i];
          }
        }
      }
      if after(row) {
        assert (sels + [sel])[|sels|] == sel;
        forall i | 0 <= i < |sels|
          ensures Holds(row, sels[i], fmt)
        {
          assert (sels + [sel])[i] == sels[i];
        }
      }
    }
    FilterFrameIsOneFilter(rows, sels + [sel], fmt);
    FilterFrameIsOneFilter(rows, sels, fmt);
    FilterFilter(before, extra, after, rows);
    FilterIsSubseq(extra, Filter(before, rows));
  }

  /** A text box left empty imposes nothing. */
  lemma EmptyPatternIsNoOp(rows: seq<Row>, sels: seq<Selection>, col: Column, fmt: Fmt)
    ensures FilterFrame(rows, sels + [Selection(col, Pattern(""))], fmt) == FilterFrame(rows, sels, fmt)
  {
    var sel := Selection(col, Pattern(""));
    var before := row => PassesAll(row, sels, fmt);
    var after := row => PassesAll(row, sels + [sel], fmt);
    forall row
      ensures after(row) == before(row)
    {
      if before(row) {
        forall i | 0 <= i < |sels + [sel]|
          ensures Holds(row, (sels + [sel])[i], fmt)
        {
          if i < |sels| {
            assert (sels + [sel])[i] == sels[i];
          }
        }
      }
      if after(row) {
        forall i | 0 <= i < |sels|
          ensures Holds(row, sels[i], fmt)
        {
          assert (sels + [sel])[i] == sels[i];
        }
      }
    }
    FilterFrameIsOneFilter(rows, sels + [sel], fmt);
    FilterFrameIsOneFilter(rows, sels, fmt);
    FilterExt(after, before, rows);
  }

  /** Columns that are not selected impose nothing: two rows that agree on
      every selected column are kept or dropped together. */
  lemma UnselectedColumnsIgnored(r1: Row, r2: Row, sels: seq<Selection>, fmt: Fmt)
    requires forall i :: 0 <= i < |sels| ==> Cell(r1, sels[i].column) == Cell(r2, sels[i].column)
    ensures PassesAll(r1, sels, fmt) <==> PassesAll(r2, sels, fmt)
  {
    assert forall i :: 0 <= i < |sels| ==> (Holds(r1, sels[i], fmt) <==> Holds(r2, sels[i], fmt));
  }

  /** The letter case of the typed pattern does not matter, because it is
      upper-cased before matching. */
  lemma PatternCaseIrrelevant(row: Row, col: Column, p: string, fmt: Fmt)
    ensures Holds(row, Selection(col, Pattern(Lower(p))), fmt) <==> Holds(row, Selection(col, Pattern(p)), fmt)
  {
    assert Upper(Lower(p)) == Upper(p);
  }

  /** The cell is not upper-cased: a lower-case cell "a" fails its own pattern. */
  lemma LowerCaseCellMissesOwnPattern(row: Row, col: Column, fmt: Fmt)
    requires Cell(row, col) == Text("a")
    ensures !Holds(row, Selection(col, Pattern("a")), fmt)
  {
    assert Upper("a") == "A";
    assert !Contains("", "A");
  }

  // --------------------------------------------------------- slider defaults

  /** The numbers of column `col`, in row order; missing cells are skipped
      as pandas `min`/`max` skip NaN. */
  function NumbersIn(rows: seq<Row>, col: Column): (xs: seq<real>)
    ensures forall row :: row in rows && Cell(row, col).Num? ==> Cell(row, col).x in xs
    ensures forall x :: x in xs ==> exists row :: row in rows && Cell(row, col) == Num(x)
  {
    if rows == [] then []
    else (if Cell(rows[0], col).Num? then [Cell(rows[0], col).x] else []) + NumbersIn(rows[1..], col)
  }

  function MinOf(xs: seq<real>): (m: real)
    requires xs != []
    ensures m in xs && forall x :: x in xs ==> m <= x
  {
    if |xs| == 1 then xs[0]
    else
      var rest := MinOf(xs[1..]);
      assert xs == [xs[0]] + xs[1..];
      if xs[0] <= rest then xs[0] else rest
  }

  function MaxOf(xs: seq<real>): (m: real)
    requires xs != []
    ensures m in xs && forall x :: x in xs ==> x <= m
  {
    if |xs| == 1 then xs[0]
    else
      var rest := MaxOf(xs[1..]);
      assert xs == [xs[0]] + xs[1..];
      if xs[0] >= rest then xs[0] else rest
  }

  /** The slider's bounds and default value `(min, max)` for a numeric
      column of the current frame; `None` when the column holds no number. */
  function SliderDomain(rows: seq<Row>, col: Column): (d: Option<(real, real)>)
    ensures d.None? <==> forall row :: row in rows ==> !Cell(row, col).Num?
    ensures d.Some? ==> d.value.0 <= d.value.1
    ensures d.Some? ==> forall row :: row in rows && Cell(row, col).Num? ==>
      d.value.0 <= Cell(row, col).x <= d.value.1
    ensures d.Some? ==> exists row :: row in rows && Cell(row, col) == Num(d.value.0)
    ensures d.Some? ==> exists row :: row in rows && Cell(row, col) == Num(d.value.1)
  {
    var xs := NumbersIn(rows, col);
    if xs == [] then None else Some((MinOf(xs), MaxOf(xs)))
  }

  /** A range that encloses every number of the column keeps exactly the
      rows whose cell in that column is a number. */
  lemma {:induction false} EnclosingRangeKeepsNumbers(rows: seq<Row>, col: Column, lo: real, hi: real, fmt: Fmt)
    requires forall row :: row in rows && Cell(row, col).Num? ==> lo <= Cell(row, col).x <= hi
    ensures FilterFrame(rows, [Selection(col, Range(lo, hi))], fmt) == Filter(row => Cell(row, col).Num?, rows)
  {
    var sels := [Selection(col, Range(lo, hi))];
    FilterFrameIsOneFilter(rows, sels, fmt);
    forall row | row in rows
      ensures PassesAll(row, sels, fmt) == Cell(row, col).Num?
    {
      assert PassesAll(row, sels, fmt) == Holds(row, sels[0], fmt);
    }
    FilterExt(row => PassesAll(row, sels, fmt), row => Cell(row, col).Num?, rows);
  }

  /** Leaving a slider at its default keeps exactly the rows whose cell in
      that column is a number. */
  lemma DefaultRangeKeepsNumbers(rows: seq<Row>, col: Column, fmt: Fmt)
    requires SliderDomain(rows, col).Some?
    ensures FilterFrame(rows, [Selection(col, Range(SliderDomain(rows, col).value.0, SliderDomain(rows, col).value.1))], fmt)
         == Filter(row => Cell(row, col).Num?, rows)
  {
    var d := SliderDomain(rows, col).value;
    EnclosingRangeKeepsNumbers(rows, col, d.0, d.1, fmt);
  }
}
