/** `groupby(levels, dropna=False)[value].sum()`, the total over the groups, and `fillna('')`. */
module Aggregation {
  import opened Wrappers

  /** The four level cells of a row after cleaning; `None` is an absent level. */
  type Key = seq<Option<string>>

  /** A cleaned row: its level cells and its positive integer value. */
  datatype Record = Record(key: Key, value: nat)

  /** One row of the grouped frame: a distinct key and the sum of its records' values. */
  datatype Group = Group(key: Key, total: nat)

  /** The sum of all record values. */
  function Sum(rs: seq<Record>): nat {
    if rs == [] then 0 else Sum(rs[..|rs| - 1]) + rs[|rs| - 1].value
  }

  /** The sum of the values of the records whose key is `k`. */
  function SumFor(rs: seq<Record>, k: Key): nat {
    if rs == [] then 0
    else SumFor(rs[..|rs| - 1], k) + (if rs[|rs| - 1].key == k then rs[|rs| - 1].value else 0)
  }

  /** The sum of all group totals (`df_agg[value].sum()`). */
  function GroupsTotal(gs: seq<Group>): nat {
    if gs == [] then 0 else gs[0].total + GroupsTotal(gs[1..])
  }

  /** The sum of the totals of the groups with key `k`. */
  function TotalFor(gs: seq<Group>, k: Key): nat {
    if gs == [] then 0 else (if gs[0].key == k then gs[0].total else 0) + TotalFor(gs[1..], k)
  }

  predicate DistinctKeys(gs: seq<Group>) {
    forall i, j :: 0 <= i < j < |gs| ==> gs[i].key != gs[j].key
  }

  predicate HasKey(gs: seq<Group>, k: Key) {
    exists i :: 0 <= i < |gs| && gs[i].key == k
  }

  predicate Occurs(rs: seq<Record>, k: Key) {
    exists i :: 0 <= i < |rs| && rs[i].key == k
  }

  /** A key is among `[g] + gs` exactly when it is `g`'s or among `gs`. */
  lemma HasKeyCons(g: Group, gs: seq<Group>)
    ensures forall k :: HasKey([g] + gs, k) <==> g.key == k || HasKey(gs, k)
  {
    var all := [g] + gs;
    forall k
      ensures HasKey(all, k) <==> g.key == k || HasKey(gs, k)
    {
      assert all[0] == g;
      if HasKey(gs, k) {
        var i :| 0 <= i < |gs| && gs[i].key == k;
        assert all[i + 1] == gs[i];
      }
      if HasKey(all, k) && g.key != k {
        var i :| 0 <= i < |all| && all[i].key == k;
        assert gs[i - 1] == all[i];
      }
    }
  }

  /** Adds one record to the groups: to the group of its key if there is one, else as a new
      group at the end. */
  function Insert(gs: seq<Group>, r: Record): (res: seq<Group>)
    requires DistinctKeys(gs)
    ensures DistinctKeys(res)
    ensures forall k :: HasKey(res, k) <==> HasKey(gs, k) || k == r.key
    ensures GroupsTotal(res) == GroupsTotal(gs) + r.value
    ensures forall k :: TotalFor(res, k) == TotalFor(gs, k) + (if k == r.key then r.value else 0)
    decreases |gs|
  {
    if gs == [] then
      HasKeyCons(Group(r.key, r.value), []);
      assert [Group(r.key, r.value)] + [] == [Group(r.key, r.value)];
      [Group(r.key, r.value)]
    else
      var tail := gs[1..];
      assert gs == [gs[0]] + tail;
      HasKeyCons(gs[0], tail);
      if gs[0].key == r.key then
        var g := Group(r.key, gs[0].total + r.value);
        HasKeyCons(g, tail);
        assert ([g] + tail)[1..] == tail;
        [g] + tail
      else
        var rest := Insert(tail, r);
        HasKeyCons(gs[0], rest);
        assert ([gs[0]] + rest)[1..] == rest;
        assert forall j :: 0 <= j < |rest| ==> rest[j].key != gs[0].key by {
          forall j | 0 <= j < |rest|
            ensures rest[j].key != gs[0].key
          {
            assert HasKey(rest, rest[j].key);
            if HasKey(tail, rest[j].key) {
              var i :| 0 <= i < |tail| && tail[i].key == rest[j].key;
              assert gs[i + 1] == tail[i];
            }
          }
        }
        [gs[0]] + rest
  }

  /** Groups the records by key, summing values; groups appear in first-appearance order. */
  function Aggregate(rs: seq<Record>): (gs: seq<Group>)
    ensures DistinctKeys(gs)
    ensures forall k :: HasKey(gs, k) <==> Occurs(rs, k)
    ensures GroupsTotal(gs) == Sum(rs)
    ensures forall k :: TotalFor(gs, k) == SumFor(rs, k)
  {
    if rs == [] then []
    else
      var init := rs[..|rs| - 1];
      var last := rs[|rs| - 1];
      var gs := Insert(Aggregate(init), last);
      assert forall k :: Occurs(rs, k) <==> Occurs(init, k) || k == last.key by {
        forall k
          ensures Occurs(rs, k) <==> Occurs(init, k) || k == last.key
        {
          if Occurs(init, k) {
            var i :| 0 <= i < |init| && init[i].key == k;
            assert rs[i].key == k;
          }
          if Occurs(rs, k) && k != last.key {
            var i :| 0 <= i < |rs| && rs[i].key == k;
            assert init[i].key == k;
          }
        }
      }
      gs
  }

  /** With distinct keys, the per-key total of a group's key is that group's own total. */
  lemma {:induction false} TotalForDistinct(gs: seq<Group>, i: nat)
    requires DistinctKeys(gs) && i < |gs|
    ensures TotalFor(gs, gs[i].key) == gs[i].total
  {
    if i == 0 {
      TotalForAbsent(gs[1..], gs[0].key);
    } else {
      assert gs[1..][i - 1] == gs[i];
      TotalForDistinct(gs[1..], i - 1);
    }
  }

  lemma {:induction false} TotalForAbsent(gs: seq<Group>, k: Key)
    requires forall j :: 0 <= j < |gs| ==> gs[j].key != k
    ensures TotalFor(gs, k) == 0
  {
    if gs != [] {
      TotalForAbsent(gs[1..], k);
    }
  }

  /** Each group's total is the sum of the values of exactly the records carrying its key. */
  lemma GroupTotalIsSumOfItsRecords(rs: seq<Record>, i: nat)
    requires i < |Aggregate(rs)|
    ensures Aggregate(rs)[i].total == SumFor(rs, Aggregate(rs)[i].key)
  {
    TotalForDistinct(Aggregate(rs), i);
  }

  /** A key that occurs among records with positive values gets a positive sum. */
  lemma {:induction false} SumForPositive(rs: seq<Record>, k: Key)
    requires forall i :: 0 <= i < |rs| ==> rs[i].value > 0
    requires Occurs(rs, k)
    ensures SumFor(rs, k) > 0
  {
    var init := rs[..|rs| - 1];
    if rs[|rs| - 1].key != k {
      var i :| 0 <= i < |rs| && rs[i].key == k;
      assert init[i].key == k;
      SumForPositive(init, k);
    }
  }

  /** Every group built from positive values has a positive total. */
  lemma GroupsPositive(rs: seq<Record>)
    requires forall i :: 0 <= i < |rs| ==> rs[i].value > 0
    ensures forall i :: 0 <= i < |Aggregate(rs)| ==> Aggregate(rs)[i].total > 0
  {
    var gs := Aggregate(rs);
    forall i | 0 <= i < |gs|
      ensures gs[i].total > 0
    {
      assert HasKey(gs, gs[i].key);
      GroupTotalIsSumOfItsRecords(rs, i);
      SumForPositive(rs, gs[i].key);
    }
  }

  /** No group total exceeds the grand total. */
  lemma {:induction false} GroupBelowTotal(gs: seq<Group>, i: nat)
    requires i < |gs|
    ensures gs[i].total <= GroupsTotal(gs)
  {
    if i > 0 {
      assert gs[1..][i - 1] == gs[i];
      GroupBelowTotal(gs[1..], i - 1);
    }
  }

  // ---- fillna('') -------------------------------------------------------------------------

  /** A grouped row after `fillna('')`: every level is a string, `''` where it was absent. */
  datatype Row = Row(levels: seq<string>, value: nat)

  function FillCell(c: Option<string>): string {
    if c.None? then "" else c.value
  }

  function FillKey(k: Key): (levels: seq<string>)
    ensures |levels| == |k|
  {
    seq(|k|, i requires 0 <= i < |k| => FillCell(k[i]))
  }

  /** The inverse reading of a filled row: `''` means absent. */
  function UnfillKey(levels: seq<string>): (k: Key)
    ensures |k| == |levels|
  {
    seq(|levels|, i requires 0 <= i < |levels| => if levels[i] == "" then None else Some(levels[i]))
  }

  /** No present level is the empty string (cleaning guarantees this). */
  predicate NoEmptyText(k: Key) {
    forall i :: 0 <= i < |k| ==> k[i] != Some("")
  }

  /** `fillna('')` loses nothing on cleaned keys: reading `''` back as absent restores the key. */
  lemma FillRoundTrip(k: Key)
    requires NoEmptyText(k)
    ensures UnfillKey(FillKey(k)) == k
  {
  }

  /** `fillna('')` on the grouped frame: one row per group with the group's total, whose levels
      read back as the group's key when no present level is `''`. */
  function Fill(gs: seq<Group>): (rows: seq<Row>)
    ensures |rows| == |gs|
    ensures forall i :: 0 <= i < |gs| ==> rows[i].value == gs[i].total
    ensures forall i :: 0 <= i < |gs| && NoEmptyText(gs[i].key) ==> UnfillKey(rows[i].levels) == gs[i].key
  {
    seq(|gs|, i requires 0 <= i < |gs| => Row(FillKey(gs[i].key), gs[i].total))
  }

  /** After `fillna('')` the grouped rows still have pairwise distinct level tuples. */
  lemma FillKeepsDistinct(gs: seq<Group>)
    requires DistinctKeys(gs)
    requires forall i :: 0 <= i < |gs| ==> NoEmptyText(gs[i].key)
    ensures forall i, j :: 0 <= i < j < |gs| ==> Fill(gs)[i].levels != Fill(gs)[j].levels
  {
    forall i, j | 0 <= i < j < |gs|
      ensures Fill(gs)[i].levels != Fill(gs)[j].levels
    {
      FillRoundTrip(gs[i].key);
      FillRoundTrip(gs[j].key);
    }
  }

  function RowsTotal(rows: seq<Row>): nat {
    if rows == [] then 0 else rows[0].value + RowsTotal(rows[1..])
  }

  lemma {:induction false} FillKeepsTotal(gs: seq<Group>)
    ensures RowsTotal(Fill(gs)) == GroupsTotal(gs)
  {
    if gs != [] {
      assert Fill(gs)[1..] == Fill(gs[1..]);
      FillKeepsTotal(gs[1..]);
    }
  }

  // ---- the grouped rows as a whole ------------------------------------------------------

  /** Cleaned records: positive values and no present level equal to `''`. */
  predicate Cleaned(rs: seq<Record>) {
    forall j :: 0 <= j < |rs| ==> rs[j].value > 0 && NoEmptyText(rs[j].key)
  }

  /** Every group key is the key of some record. */
  lemma GroupKeysOccur(rs: seq<Record>, i: nat)
    requires i < |Aggregate(rs)|
    ensures exists j :: 0 <= j < |rs| && rs[j].key == Aggregate(rs)[i].key
  {
    assert HasKey(Aggregate(rs), Aggregate(rs)[i].key);
  }

  /** The filled rows keep the grand total, and each row's value is the sum of the records
      whose key it spells. */
  lemma GroupedRowsSum(rs: seq<Record>)
    requires Cleaned(rs)
    ensures RowsTotal(Fill(Aggregate(rs))) == Sum(rs)
    ensures forall i :: 0 <= i < |Fill(Aggregate(rs))| ==>
              Fill(Aggregate(rs))[i].value == SumFor(rs, UnfillKey(Fill(Aggregate(rs))[i].levels))
    ensures forall i :: 0 <= i < |Fill(Aggregate(rs))| ==>
              0 < Fill(Aggregate(rs))[i].value <= Sum(rs)
  {
    var gs := Aggregate(rs);
    var rows := Fill(gs);
    FillKeepsTotal(gs);
    GroupsPositive(rs);
    forall i | 0 <= i < |rows|
      ensures rows[i].value == SumFor(rs, UnfillKey(rows[i].levels))
      ensures 0 < rows[i].value <= Sum(rs)
    {
      GroupKeysOccur(rs, i);
      FillRoundTrip(gs[i].key);
      GroupTotalIsSumOfItsRecords(rs, i);
      GroupBelowTotal(gs, i);
    }
  }

  /** No two rows spell the same levels. */
  predicate DistinctRows(rows: seq<Row>) {
    forall i, j :: 0 <= i < j < |rows| ==> rows[i].levels != rows[j].levels
  }

  /** Some row spells `levels`. */
  predicate RowWith(rows: seq<Row>, levels: seq<string>) {
    exists i :: 0 <= i < |rows| && rows[i].levels == levels
  }

  /** `levels` is the filled key of some record. */
  predicate LevelsOfRecord(levels: seq<string>, rs: seq<Record>) {
    exists j :: 0 <= j < |rs| && levels == FillKey(rs[j].key)
  }

  /** Grouping cleaned records and filling their keys gives rows with distinct levels. */
  lemma GroupedRowsDistinct(rs: seq<Record>)
    requires Cleaned(rs)
    ensures DistinctRows(Fill(Aggregate(rs)))
  {
    var gs := Aggregate(rs);
    forall i | 0 <= i < |gs|
      ensures NoEmptyText(gs[i].key)
    {
      GroupKeysOccur(rs, i);
    }
    FillKeepsDistinct(gs);
  }

  /** Every grouped row spells the filled key of some record. */
  lemma GroupedRowsFromRecords(rs: seq<Record>)
    ensures forall i :: 0 <= i < |Fill(Aggregate(rs))| ==> LevelsOfRecord(Fill(Aggregate(rs))[i].levels, rs)
  {
    var rows := Fill(Aggregate(rs));
    forall i | 0 <= i < |rows|
      ensures LevelsOfRecord(rows[i].levels, rs)
    {
      GroupKeysOccur(rs, i);
    }
  }

  /** The filled key of every record is spelled by a grouped row. */
  lemma RecordsGrouped(rs: seq<Record>)
    ensures forall j :: 0 <= j < |rs| ==> RowWith(Fill(Aggregate(rs)), FillKey(rs[j].key))
  {
    var gs := Aggregate(rs);
    var rows := Fill(gs);
    forall j | 0 <= j < |rs|
      ensures RowWith(rows, FillKey(rs[j].key))
    {
      assert Occurs(rs, rs[j].key);
      var i :| 0 <= i < |gs| && gs[i].key == rs[j].key;
      assert rows[i].levels == FillKey(rs[j].key);
    }
  }

}
