/** `fix_units`: percentage-like columns are made numeric, brought to the
    configured scale (percent or proportion) and clipped at zero. */
module Units {
  import opened Text
  import opened Tables
  import opened Wrappers

  /** A column is rescaled when its name contains one of the unit markers
      "prevalence", "rate", "pct", "percentage" or "insecurity". */
  predicate IsUnitColumn(name: string) {
    Contains(name, "prevalence") || Contains(name, "rate") || Contains(name, "pct") ||
    Contains(name, "percentage") || Contains(name, "insecurity")
  }

  /** The cells of column `p`, top to bottom. */
  function Column(t: Table, p: nat): (col: seq<Cell>)
    requires WellFormed(t) && p < |t.cols|
    ensures |col| == |t.rows| && forall i :: 0 <= i < |t.rows| ==> col[i] == t.rows[i][p]
  {
    seq(|t.rows|, i requires 0 <= i < |t.rows| => t.rows[i][p])
  }

  /** `max(skipna=True)` of the numeric view of a column; None stands for the
      NaN pandas returns when no cell is numeric. */
  function ColumnMax(cells: seq<Cell>): (m: Option<real>)
    ensures m.None? <==> forall i :: 0 <= i < |cells| ==> NumericValue(cells[i]).None?
    ensures m.Some? ==> exists i :: 0 <= i < |cells| && NumericValue(cells[i]) == Some(m.value)
    ensures m.Some? ==> forall i :: 0 <= i < |cells| && NumericValue(cells[i]).Some? ==>
                          NumericValue(cells[i]).value <= m.value
  {
    if |cells| == 0 then None
    else
      var rest := ColumnMax(cells[1..]);
      assert forall i :: 1 <= i < |cells| ==> cells[1..][i - 1] == cells[i];
      match NumericValue(cells[0])
      case None => rest
      case Some(x) => if rest.None? || x > rest.value then Some(x) else rest
  }

  /** What happens to a unit column's values before clipping. */
  datatype Rescale = Keep | TimesHundred | OverHundred

  /** With NaN as the maximum both comparisons are false and nothing is
      rescaled. */
  function RescaleFor(asPercent: bool, max: Option<real>): Rescale {
    if asPercent && max.Some? && max.value <= 1.0 then TimesHundred
    else if !asPercent && max.Some? && max.value > 1.0 then OverHundred
    else Keep
  }

  function Clip(x: real): (y: real)
    ensures y >= 0.0 && (x >= 0.0 ==> y == x) && (x < 0.0 ==> y == 0.0)
  {
    if x < 0.0 then 0.0 else x
  }

  function Scale(x: real, how: Rescale): real {
    match how
    case Keep => x
    case TimesHundred => x * 100.0
    case OverHundred => x / 100.0
  }

  /** One cell of a unit column.  Text is not numeric and becomes Null; an
      integer column that is not rescaled stays integer. */
  function FixCell(c: Cell, how: Rescale): (r: Cell)
    ensures r.Null? <==> NumericValue(c).None?
    ensures NumericValue(c).Some? ==>
              NumericValue(r) == Some(Clip(Scale(NumericValue(c).value, how)))
    ensures c.Int? && how == Keep ==> r.Int?
  {
    match c
    case Int(i) => if how == Keep then Int(if i < 0 then 0 else i) else Num(Clip(Scale(i as real, how)))
    case Num(x) => Num(Clip(Scale(x, how)))
    case _ => Null
  }

  /** Every unit column name names one column only: selecting a duplicated
      name yields a frame, which `pd.to_numeric` rejects. */
  predicate UnitColumnsUnique(cols: seq<string>) {
    forall p :: 0 <= p < |cols| && IsUnitColumn(cols[p]) ==> AtMostOnce(cols, cols[p])
  }

  /** The rescale decided for each column, None for a column left alone. */
  function Plan(t: Table, asPercent: bool): (plan: seq<Option<Rescale>>)
    requires WellFormed(t)
    ensures |plan| == |t.cols|
    ensures forall p :: 0 <= p < |t.cols| ==> (plan[p].Some? <==> IsUnitColumn(t.cols[p]))
  {
    seq(|t.cols|, p requires 0 <= p < |t.cols| =>
      if IsUnitColumn(t.cols[p]) then Some(RescaleFor(asPercent, ColumnMax(Column(t, p)))) else None)
  }

  function FixRow(row: Row, plan: seq<Option<Rescale>>): (r: Row)
    requires |row| == |plan|
    ensures |r| == |row|
    ensures forall p :: 0 <= p < |row| ==>
              r[p] == if plan[p].Some? then FixCell(row[p], plan[p].value) else row[p]
  {
    seq(|row|, p requires 0 <= p < |row| => if plan[p].Some? then FixCell(row[p], plan[p].value) else row[p])
  }

  /** `fix_units`: names and row count are kept, other columns are untouched,
      and every cell of a unit column ends up Null or a non-negative number. */
  function FixUnits(t: Table, asPercent: bool): (r: Table)
    requires WellFormed(t) && UnitColumnsUnique(t.cols)
    ensures r.cols == t.cols && |r.rows| == |t.rows| && WellFormed(r)
    ensures forall i, p :: 0 <= i < |t.rows| && 0 <= p < |t.cols| && !IsUnitColumn(t.cols[p]) ==>
              r.rows[i][p] == t.rows[i][p]
    ensures forall i, p :: 0 <= i < |t.rows| && 0 <= p < |t.cols| && IsUnitColumn(t.cols[p]) ==>
              (r.rows[i][p].Null? <==> NumericValue(t.rows[i][p]).None?) &&
              (r.rows[i][p].Null? ||
               (NumericValue(r.rows[i][p]).Some? && NumericValue(r.rows[i][p]).value >= 0.0))
  {
    var plan := Plan(t, asPercent);
    Table(t.cols, seq(|t.rows|, i requires 0 <= i < |t.rows| => FixRow(t.rows[i], plan)))
  }

  /** The value a unit cell receives, in terms of the column's own values. */
  lemma FixUnitsValue(t: Table, asPercent: bool, i: nat, p: nat)
    requires WellFormed(t) && UnitColumnsUnique(t.cols)
    requires i < |t.rows| && p < |t.cols| && IsUnitColumn(t.cols[p])
    requires NumericValue(t.rows[i][p]).Some?
    ensures NumericValue(FixUnits(t, asPercent).rows[i][p]) ==
              Some(Clip(Scale(NumericValue(t.rows[i][p]).value,
                              RescaleFor(asPercent, ColumnMax(Column(t, p))))))
  {
  }

  /** Stored as percent, a column of proportions (no value above 1) is
      multiplied by 100, so it lands in [0, 100]. */
  lemma {:induction false} ProportionsBecomePercent(t: Table, i: nat, p: nat)
    requires WellFormed(t) && UnitColumnsUnique(t.cols)
    requires i < |t.rows| && p < |t.cols| && IsUnitColumn(t.cols[p])
    requires forall k :: 0 <= k < |t.rows| && NumericValue(t.rows[k][p]).Some? ==>
               NumericValue(t.rows[k][p]).value <= 1.0
    requires NumericValue(t.rows[i][p]).Some?
    ensures var v := NumericValue(FixUnits(t, true).rows[i][p]).value;
            v == Clip(100.0 * NumericValue(t.rows[i][p]).value) && 0.0 <= v <= 100.0
  {
    var col := Column(t, p);
    assert NumericValue(col[i]).Some?;
    var m := ColumnMax(col);
    var k :| 0 <= k < |col| && NumericValue(col[k]) == Some(m.value);
    assert m.value <= 1.0;
    FixUnitsValue(t, true, i, p);
  }

  /** Stored as percent, a column with some value above 1 is taken to be in
      percent already: its values are only clipped. */
  lemma {:induction false} PercentColumnsOnlyClipped(t: Table, i: nat, p: nat, j: nat)
    requires WellFormed(t) && UnitColumnsUnique(t.cols)
    requires i < |t.rows| && p < |t.cols| && IsUnitColumn(t.cols[p])
    requires j < |t.rows| && NumericValue(t.rows[j][p]).Some? && NumericValue(t.rows[j][p]).value > 1.0
    requires NumericValue(t.rows[i][p]).Some?
    ensures NumericValue(FixUnits(t, true).rows[i][p]) == Some(Clip(NumericValue(t.rows[i][p]).value))
  {
    var col := Column(t, p);
    assert NumericValue(col[j]).Some?;
    FixUnitsValue(t, true, i, p);
  }

  /** Stored as proportions, a column with some value above 1 is divided by
      100; one with none is only clipped. */
  lemma {:induction false} ProportionMode(t: Table, i: nat, p: nat)
    requires WellFormed(t) && UnitColumnsUnique(t.cols)
    requires i < |t.rows| && p < |t.cols| && IsUnitColumn(t.cols[p])
    requires NumericValue(t.rows[i][p]).Some?
    ensures var x := NumericValue(t.rows[i][p]).value;
            var v := NumericValue(FixUnits(t, false).rows[i][p]).value;
            ((exists k :: 0 <= k < |t.rows| && NumericValue(t.rows[k][p]).Some? &&
                          NumericValue(t.rows[k][p]).value > 1.0) ==> v == Clip(x / 100.0)) &&
            ((forall k :: 0 <= k < |t.rows| && NumericValue(t.rows[k][p]).Some? ==>
                          NumericValue(t.rows[k][p]).value <= 1.0) ==> v == Clip(x))
  {
    var col := Column(t, p);
    assert NumericValue(col[i]).Some?;
    var m := ColumnMax(col);
    assert forall k :: 0 <= k < |t.rows| ==> col[k] == t.rows[k][p];
    FixUnitsValue(t, false, i, p);
  }

  /** Stored as percent, fixing a table whose unit columns each hold a value
      above 1 changes nothing a second time. */
  lemma FixUnitsStable(t: Table)
    requires WellFormed(t) && UnitColumnsUnique(t.cols)
    requires forall p :: 0 <= p < |t.cols| && IsUnitColumn(t.cols[p]) ==>
               exists k :: 0 <= k < |t.rows| && NumericValue(t.rows[k][p]).Some? &&
                           NumericValue(t.rows[k][p]).value > 1.0
    ensures FixUnits(FixUnits(t, true), true) == FixUnits(t, true)
  {
    var r := FixUnits(t, true);
    var r2 := FixUnits(r, true);
    forall i, p | 0 <= i < |t.rows| && 0 <= p < |t.cols|
      ensures r2.rows[i][p] == r.rows[i][p]
    {
      if IsUnitColumn(t.cols[p]) {
        var k :| 0 <= k < |t.rows| && NumericValue(t.rows[k][p]).Some? &&
                 NumericValue(t.rows[k][p]).value > 1.0;
        StableCell(t, i, p, k);
      }
    }
    forall i | 0 <= i < |t.rows|
      ensures r2.rows[i] == r.rows[i]
    {
    }
  }

  /** One cell of a unit column that holds a value above 1. */
  lemma StableCell(t: Table, i: nat, p: nat, k: nat)
    requires WellFormed(t) && UnitColumnsUnique(t.cols)
    requires i < |t.rows| && p < |t.cols| && IsUnitColumn(t.cols[p])
    requires k < |t.rows| && NumericValue(t.rows[k][p]).Some? && NumericValue(t.rows[k][p]).value > 1.0
    ensures FixUnits(FixUnits(t, true), true).rows[i][p] == FixUnits(t, true).rows[i][p]
  {
    var r := FixUnits(t, true);
    KeptColumn(t, p, k);
    assert r.rows[k][p] == FixCell(t.rows[k][p], Keep);
    KeptColumn(r, p, k);
    assert FixUnits(r, true).rows[i][p] == FixCell(r.rows[i][p], Keep);
    FixCellKeepStable(t.rows[i][p]);
  }

  /** A unit column holding a value above 1 is kept as it is in percent mode. */
  lemma KeptColumn(t: Table, p: nat, k: nat)
    requires WellFormed(t) && p < |t.cols| && IsUnitColumn(t.cols[p])
    requires k < |t.rows| && NumericValue(t.rows[k][p]).Some? && NumericValue(t.rows[k][p]).value > 1.0
    ensures Plan(t, true)[p] == Some(Keep)
  {
    var col := Column(t, p);
    assert col[k] == t.rows[k][p];
    assert NumericValue(col[k]).Some?;
  }

  /** Keeping and clipping is idempotent on a single cell. */
  lemma FixCellKeepStable(c: Cell)
    ensures FixCell(FixCell(c, Keep), Keep) == FixCell(c, Keep)
  {
  }

  /** A unit column with no numeric value comes out all Null. */
  lemma AllMissingStaysMissing(t: Table, asPercent: bool, p: nat)
    requires WellFormed(t) && UnitColumnsUnique(t.cols)
    requires p < |t.cols| && IsUnitColumn(t.cols[p])
    requires forall k :: 0 <= k < |t.rows| ==> NumericValue(t.rows[k][p]).None?
    ensures forall k :: 0 <= k < |t.rows| ==> FixUnits(t, asPercent).rows[k][p] == Null
  {
  }
}
