/** What both scripts' grouping step guarantees about the grouped rows, stated against the
    level tuples and parsed values of the input rows. */
module Grouping {
  import opened Wrappers
  import opened Aggregation
  import opened Cleaning
  import opened Percent

  /** Group the kept rows and fill absent levels with `''`: `df_agg` after `fillna('')`. There
      are grouped rows exactly when some row survives the value filter. */
  function GroupKept(keys: seq<Key>, vals: seq<Option<int>>): (rows: seq<Row>)
    requires |keys| == |vals|
    ensures rows == [] <==> KeptIndices(vals) == []
  {
    var rs := KeepPositive(keys, vals);
    KeepPositiveSelects(keys, vals);
    assert rs != [] ==> RowWith(Fill(Aggregate(rs)), FillKey(rs[0].key)) by {
      if rs != [] {
        RecordsGrouped(rs);
      }
    }
    Fill(Aggregate(rs))
  }

  /** `levels` is the filled level tuple of some kept position. */
  predicate LevelsOfKept(levels: seq<string>, keys: seq<Key>, vals: seq<Option<int>>)
    requires |keys| == |vals|
  {
    exists j :: 0 <= j < |vals| && Kept(vals, j) && levels == FillKey(keys[j])
  }

  /** Each grouped row spells the levels of some kept position. */
  predicate RowsFromKept(rows: seq<Row>, keys: seq<Key>, vals: seq<Option<int>>)
    requires |keys| == |vals|
  {
    forall i :: 0 <= i < |rows| ==> LevelsOfKept(rows[i].levels, keys, vals)
  }

  /** The levels of each kept position are spelled by some grouped row. */
  predicate KeptInRows(rows: seq<Row>, keys: seq<Key>, vals: seq<Option<int>>)
    requires |keys| == |vals|
  {
    forall j :: 0 <= j < |vals| && Kept(vals, j) ==> RowWith(rows, FillKey(keys[j]))
  }

  /** Each grouped row spells the levels of a kept position. */
  lemma GroupedFromKept(keys: seq<Key>, vals: seq<Option<int>>)
    requires |keys| == |vals|
    ensures RowsFromKept(GroupKept(keys, vals), keys, vals)
  {
    var rs := KeepPositive(keys, vals);
    var rows := GroupKept(keys, vals);
    GroupedRowsFromRecords(rs);
    KeptRecordsFrom(keys, vals);
    forall i | 0 <= i < |rows|
      ensures LevelsOfKept(rows[i].levels, keys, vals)
    {
      assert LevelsOfRecord(rows[i].levels, rs);
      var k :| 0 <= k < |rs| && rows[i].levels == FillKey(rs[k].key);
      assert KeyOfKept(rs[k].key, keys, vals);
      var j :| 0 <= j < |vals| && Kept(vals, j) && rs[k].key == keys[j];
    }
  }

  /** The levels of every kept position are spelled by a grouped row. */
  lemma KeptGrouped(keys: seq<Key>, vals: seq<Option<int>>)
    requires |keys| == |vals|
    ensures KeptInRows(GroupKept(keys, vals), keys, vals)
  {
    var rs := KeepPositive(keys, vals);
    var rows := GroupKept(keys, vals);
    RecordsGrouped(rs);
    KeptRecordsCover(keys, vals);
    forall j | 0 <= j < |vals| && Kept(vals, j)
      ensures RowWith(rows, FillKey(keys[j]))
    {
      assert RecordWith(rs, keys[j]);
      var k :| 0 <= k < |rs| && rs[k].key == keys[j];
      assert RowWith(rows, FillKey(rs[k].key));
    }
  }

  /** The grouped rows spell pairwise distinct level tuples of the given width. */
  lemma GroupedShape(keys: seq<Key>, vals: seq<Option<int>>, width: nat)
    requires |keys| == |vals|
    requires forall j :: 0 <= j < |keys| ==> Shaped(keys[j], width)
    ensures DistinctRows(GroupKept(keys, vals))
    ensures forall i :: 0 <= i < |GroupKept(keys, vals)| ==> |GroupKept(keys, vals)[i].levels| == width
  {
    var rs := KeepPositive(keys, vals);
    var rows := GroupKept(keys, vals);
    KeepPositiveKeys(keys, vals, width);
    GroupedRowsDistinct(rs);
    GroupedRowsFromRecords(rs);
    forall i | 0 <= i < |rows|
      ensures |rows[i].levels| == width
    {
      assert LevelsOfRecord(rows[i].levels, rs);
      var k :| 0 <= k < |rs| && rows[i].levels == FillKey(rs[k].key);
      assert Shaped(rs[k].key, width);
    }
  }

  /** The grouped rows keep the sum of the positive values; each row's value is positive, at
      most that sum, and the sum of the values of the kept rows with its levels. */
  lemma GroupedTotals(keys: seq<Key>, vals: seq<Option<int>>, width: nat)
    requires |keys| == |vals|
    requires forall j :: 0 <= j < |keys| ==> Shaped(keys[j], width)
    ensures RowsTotal(GroupKept(keys, vals)) == PositiveTotal(vals)
    ensures forall i :: 0 <= i < |GroupKept(keys, vals)| ==>
              && 0 < GroupKept(keys, vals)[i].value <= PositiveTotal(vals)
              && GroupKept(keys, vals)[i].value
                 == SumFor(KeepPositive(keys, vals), UnfillKey(GroupKept(keys, vals)[i].levels))
  {
    KeepPositiveKeys(keys, vals, width);
    GroupedRowsSum(KeepPositive(keys, vals));
  }

  /** A row of the chart is a positive part of the total, namely the sum of the kept records
      with its levels, and its share is that part of the total. */
  predicate Valued(r: Row, share: Percentage, records: seq<Record>, total: nat) {
    && 0 < r.value <= total
    && r.value == SumFor(records, UnfillKey(r.levels))
    && share == Ratio(r.value, total)
    && AtMostWhole(share)
  }
}
