/** create_treemap.py from the loaded table to the rows handed to the charting library: the
    fixed value column, cleaning, grouping, path tuples, labels and shares. */
module CreateTreemap {
  import opened Wrappers
  import opened Text
  import opened Frame
  import opened Schema
  import opened Aggregation
  import opened Cleaning
  import opened Grouping
  import opened Labels
  import opened Percent

  /** The one value column this script reads. */
  const ValueColumn: string := "Total Tickets Q1"

  /** One row of `df_agg` as the chart receives it: its levels (`''` when absent), its summed
      value, its `path_tuple`, the label of its `display_text` and the shown share. */
  datatype Node = Node(levels: seq<string>, value: nat, path: Option<seq<string>>, shown: string,
                       share: Percentage)

  /** The chart's input: the nodes and the grand total. */
  datatype Chart = Chart(nodes: seq<Node>, total: nat)

  /** The parsed value of every cell of the value column. */
  function ParsedValues(t: Table): (vals: seq<Option<int>>)
    requires WellFormed(t) && ValueColumn in t.header
    ensures |vals| == |t.rows|
  {
    var col := Column(t, ValueColumn);
    seq(|col|, i requires 0 <= i < |col| => CreateParseValue(col[i]))
  }

  /** A level column present in the file is cleaned; a missing one is added as
      `None` after the cleaning, so it is simply absent. */
  function Level(t: Table, i: nat, col: string): Option<string>
    requires WellFormed(t) && i < |t.rows|
  {
    match IndexOf(t.header, col)
    case None => None
    case Some(j) => CreateCleanCell(t.rows[i][j])
  }

  function LevelKey(t: Table, i: nat): (k: Key)
    requires WellFormed(t) && i < |t.rows|
    ensures Shaped(k, |HierarchyColumns|)
  {
    seq(|HierarchyColumns|, l requires 0 <= l < |HierarchyColumns| => Level(t, i, HierarchyColumns[l]))
  }

  /** The level tuples of every row, in row order. */
  function LevelKeys(t: Table): (keys: seq<Key>)
    requires WellFormed(t)
    ensures |keys| == |t.rows|
    ensures forall j :: 0 <= j < |t.rows| ==> keys[j] == LevelKey(t, j)
  {
    seq(|t.rows|, i requires 0 <= i < |t.rows| => LevelKey(t, i))
  }

  /** Each filled row gets its path tuple, its label and its share of `total`. */
  function Describe(rows: seq<Row>, total: nat): (nodes: seq<Node>)
    ensures |nodes| == |rows|
    ensures forall i :: 0 <= i < |rows| ==>
              nodes[i].levels == rows[i].levels && nodes[i].value == rows[i].value
  {
    seq(|rows|, i requires 0 <= i < |rows| =>
      var lv := rows[i].levels;
      Node(lv, rows[i].value, PathTuple(lv), CreateLabel(lv), CreatePercentage(rows[i].value, total)))
  }

  /** The script's pipeline. A file with no header stops it (`EmptyDataError`), and so does a
      header without the value column (`KeyError`); a header with no rows gives no node. */
  function Run(t: Table): (r: Result<Chart, Fault>)
    requires WellFormed(t)
    ensures r.Success? <==> ValueColumn in t.header
    ensures |t.header| == 0 ==> r == Failure(EmptyFile)
    ensures |t.header| > 0 && ValueColumn !in t.header ==> r == Failure(MissingColumn(ValueColumn))
  {
    if |t.header| == 0 then Failure(EmptyFile)
    else if ValueColumn !in t.header then Failure(MissingColumn(ValueColumn))
    else
      var rows := GroupKept(LevelKeys(t), ParsedValues(t));
      var total := RowsTotal(rows);
      Success(Chart(Describe(rows, total), total))
  }

  // ---- the rows the chart receives ----------------------------------------------------------

  /** The levels and value of every node: what the charting library sums and lays out. */
  function Rows(nodes: seq<Node>): (rows: seq<Row>)
    ensures |rows| == |nodes|
  {
    seq(|nodes|, i requires 0 <= i < |nodes| => Row(nodes[i].levels, nodes[i].value))
  }

  /** Describing the grouped rows hands the charting library exactly those rows. */
  lemma DescribedRows(rows: seq<Row>, total: nat)
    ensures Rows(Describe(rows, total)) == rows
  {
    var nodes := Describe(rows, total);
    assert forall i :: 0 <= i < |rows| ==> Rows(nodes)[i] == rows[i];
  }

  // ---- totals and shares ------------------------------------------------------------------

  /** No ticket is lost or counted twice: the grand total is the sum of the positive values of
      the value column, and the node values add up to it. */
  lemma RunKeepsTotal(t: Table)
    requires WellFormed(t) && ValueColumn in t.header
    ensures Run(t).value.total == PositiveTotal(ParsedValues(t))
    ensures RowsTotal(Rows(Run(t).value.nodes)) == Run(t).value.total
  {
    var c := Run(t).value;
    GroupedTotals(LevelKeys(t), ParsedValues(t), |HierarchyColumns|);
    DescribedRows(GroupKept(LevelKeys(t), ParsedValues(t)), c.total);
  }

  lemma DescribedValues(keys: seq<Key>, vals: seq<Option<int>>)
    requires |keys| == |vals|
    requires forall j :: 0 <= j < |keys| ==> Shaped(keys[j], |HierarchyColumns|)
    ensures var rows := GroupKept(keys, vals);
            var nodes := Describe(rows, RowsTotal(rows));
            forall i :: 0 <= i < |nodes| ==>
              Valued(Row(nodes[i].levels, nodes[i].value), nodes[i].share, KeepPositive(keys, vals), RowsTotal(rows))
    ensures RowsTotal(GroupKept(keys, vals)) == 0 <==> GroupKept(keys, vals) == []
  {
    var rows := GroupKept(keys, vals);
    var total := RowsTotal(rows);
    var nodes := Describe(rows, total);
    GroupedTotals(keys, vals, |HierarchyColumns|);
    forall i | 0 <= i < |nodes|
      ensures Valued(Row(nodes[i].levels, nodes[i].value), nodes[i].share, KeepPositive(keys, vals), total)
    {
      assert nodes[i].share == CreatePercentage(rows[i].value, total);
    }
    if rows != [] {
      assert rows[0].value > 0;
    }
  }

  /** Every node's value is a positive part of the total: the sum of the values of the rows
      with its levels, kept because their value is a positive integer. Its share is that part
      of the total, and the zero-total guard fires only when there is no node. */
  lemma RunNodeValues(t: Table)
    requires WellFormed(t) && ValueColumn in t.header
    ensures var c := Run(t).value;
            forall i :: 0 <= i < |c.nodes| ==>
              Valued(Row(c.nodes[i].levels, c.nodes[i].value), c.nodes[i].share,
                     KeepPositive(LevelKeys(t), ParsedValues(t)), c.total)
    ensures Run(t).value.total == 0 <==> Run(t).value.nodes == []
  {
    DescribedValues(LevelKeys(t), ParsedValues(t));
  }

  // ---- levels, paths and labels -----------------------------------------------------------

  /** The nodes are the distinct level tuples of the kept rows: each node spells the levels of
      some row whose value is a positive integer, and the levels of every such row are spelled
      by a node. */
  lemma RunNodeLevels(t: Table)
    requires WellFormed(t) && ValueColumn in t.header
    ensures DistinctRows(Rows(Run(t).value.nodes))
    ensures RowsFromKept(Rows(Run(t).value.nodes), LevelKeys(t), ParsedValues(t))
    ensures KeptInRows(Rows(Run(t).value.nodes), LevelKeys(t), ParsedValues(t))
  {
    var keys, vals := LevelKeys(t), ParsedValues(t);
    DescribedRows(GroupKept(keys, vals), Run(t).value.total);
    GroupedShape(keys, vals, |HierarchyColumns|);
    GroupedFromKept(keys, vals);
    KeptGrouped(keys, vals);
  }

  /** A node's path tuple is its levels up to the first `''`, or `None` when the first level is
      empty; its label is the last element of that tuple, or "Root" when there is none. */
  predicate PathLabelled(n: Node) {
    && (n.path.None? <==> |n.levels| == 0 || n.levels[0] == "")
    && (n.path.Some? ==> n.path.value == PathPrefix(n.levels) && n.shown == n.path.value[|n.path.value| - 1])
    && (n.path.None? ==> n.shown == RootLabel)
  }

  /** Every node's label is the last step of its path tuple: the path-tuple loop and the label
      loop walk the levels the same way. */
  lemma RunNodeLabels(t: Table)
    requires WellFormed(t) && ValueColumn in t.header
    ensures var c := Run(t).value;
            forall i :: 0 <= i < |c.nodes| ==> |c.nodes[i].levels| == |HierarchyColumns| && PathLabelled(c.nodes[i])
  {
    GroupedShape(LevelKeys(t), ParsedValues(t), |HierarchyColumns|);
  }

  /** On nodes whose absent levels form a suffix, this script shows the label
      generate_treemap.py shows, and its path tuple joined with " > " is that script's hover path. */
  lemma NodeLabelsMatchGenerate(n: Node)
    requires PathLabelled(n)
    requires ContiguousSuffix(n.levels)
    ensures n.shown == LastNonEmpty(n.levels)
    ensures n.path.None? ==> HoverPath(n.levels) == RootLabel
    ensures n.path.Some? ==> HoverPath(n.levels) == JoinPath(n.path.value)
  {
    LabelsAgreeOnContiguousRows(n.levels);
    HoverPathIsJoinedTuple(n.levels);
    if n.path.Some? {
      assert n.shown == CreateLabel(n.levels);
    } else {
      assert PathPrefix(n.levels) == [];
    }
  }

  /** generate_treemap.py picks this script's value column whenever it is the last header. */
  lemma SameValueColumnWhenLast(hs: seq<string>)
    requires |hs| > 0 && hs[|hs| - 1] == ValueColumn
    ensures SelectValueColumn(hs) == Success(ValueColumn)
  {
    assert ValueColumn !in HierarchyColumns;
    assert !Contains(Lower(ValueColumn), "contact root cause");
  }
}
