/** generate_treemap.py's `main` from the loaded table to the rows handed to the charting
    library: value-column selection, column repair, cleaning, grouping, labels and shares. */
module GenerateTreemap {
  import opened Wrappers
  import opened Seqs
  import opened Text
  import opened Frame
  import opened Schema
  import opened Aggregation
  import opened Cleaning
  import opened Grouping
  import opened Labels
  import opened Percent

  /** One row of `df_agg` as the chart receives it: its levels (`''` when absent), its summed
      value, the label of `display_text`, the path of `hover_text` and the shown share. */
  datatype Node = Node(levels: seq<string>, value: nat, shown: string, hover: string, share: Percentage)

  /** The chart's input: the value column's name (used in the title and the hover text), the
      nodes and the grand total. */
  datatype Chart = Chart(valueColumn: string, nodes: seq<Node>, total: nat)

  /** `clean_value_column` before its filter: the parsed value of every cell of the column. */
  function ParsedValues(t: Table, valueCol: string): (vals: seq<Option<int>>)
    requires WellFormed(t) && valueCol in t.header
    ensures |vals| == |t.rows|
  {
    var col := Column(t, valueCol);
    seq(|col|, i requires 0 <= i < |col| => GenerateParseValue(col[i]))
  }

  /** The cleaned hierarchy cells of row `i` of a table that has every hierarchy column. */
  function CleanLevels(t: Table, i: nat): (k: Key)
    requires WellFormed(t) && i < |t.rows|
    requires forall c :: c in HierarchyColumns ==> c in t.header
    ensures |k| == |HierarchyColumns|
  {
    seq(|HierarchyColumns|, l requires 0 <= l < |HierarchyColumns| =>
      GenerateCleanCell(Column(t, HierarchyColumns[l])[i]))
  }

  /** The cleaned level tuples of every row of a table that has every hierarchy column. */
  function CleanKeys(t: Table): (keys: seq<Key>)
    requires WellFormed(t)
    requires forall c :: c in HierarchyColumns ==> c in t.header
    ensures |keys| == |t.rows|
    ensures forall i :: 0 <= i < |t.rows| ==> keys[i] == CleanLevels(t, i)
  {
    seq(|t.rows|, i requires 0 <= i < |t.rows| => CleanLevels(t, i))
  }

  /** Each filled row gets its label, hover path and share of `total`. */
  function Describe(rows: seq<Row>, total: nat): (nodes: seq<Node>)
    ensures |nodes| == |rows|
    ensures forall i :: 0 <= i < |rows| ==>
              nodes[i].levels == rows[i].levels && nodes[i].value == rows[i].value
  {
    seq(|rows|, i requires 0 <= i < |rows| =>
      var lv := rows[i].levels;
      Node(lv, rows[i].value, LastNonEmpty(lv), HoverPath(lv), FormatPercentage(rows[i].value, Some(total))))
  }

  /** The columns the script writes into the grouped rows after computing them: the display
      text, the hover text and the value column's name. A value column with one of these names
      is overwritten by text as soon as there is a grouped row, and the charting call then fails
      to read it as numbers. Without a grouped row the writes fill no cell. */
  const WrittenColumns: seq<string> := ["display_text", "hover_text", "value_col_name"]

  /** Some row's cell in column `v` parses to a positive integer, so it survives the value
      filter and the grouped rows are not empty. */
  predicate SomeRowKept(t: Table, v: string)
    requires WellFormed(t)
  {
    v in t.header && KeptIndices(ParsedValues(t, v)) != []
  }

  /** The inputs for which the script draws a chart: a non-empty file whose value column can be
      chosen and is not overwritten later. */
  predicate Charts(t: Table)
    requires WellFormed(t)
  {
    && |t.header| > 0 && |t.rows| > 0
    && SelectValueColumn(t.header).Success?
    && (SelectValueColumn(t.header).value in WrittenColumns ==> !SomeRowKept(t, SelectValueColumn(t.header).value))
  }

  /** The script's pipeline. An empty file stops it, and so does a header from which no value
      column can be chosen; the missing-value-column exit is kept but cannot be reached. A value
      column named like one of the written columns ends in the generic error handler once a row
      is kept; with no kept row the chart is drawn without nodes, as for any other column. */
  function Run(t: Table): (r: Result<Chart, Fault>)
    requires WellFormed(t)
    ensures |t.header| == 0 || |t.rows| == 0 ==> r == Failure(EmptyFile)
    ensures r.Success? <==> Charts(t)
    ensures |t.header| > 0 && |t.rows| > 0 && SelectValueColumn(t.header).Failure? ==>
              r == Failure(UndetectedValueColumn)
    ensures |t.header| > 0 && |t.rows| > 0 && SelectValueColumn(t.header).Success? &&
            SelectValueColumn(t.header).value in WrittenColumns &&
            SomeRowKept(t, SelectValueColumn(t.header).value) ==>
              r == Failure(ValueColumnOverwritten(SelectValueColumn(t.header).value))
    ensures r.Success? ==>
              && r.value.valueColumn in t.header
              && r.value.valueColumn !in HierarchyColumns
              && r.value.valueColumn == SelectValueColumn(t.header).value
    ensures r.Success? && r.value.valueColumn in WrittenColumns ==> r.value.nodes == []
  {
    if |t.header| == 0 || |t.rows| == 0 then Failure(EmptyFile)
    else
      ValueColumnIsHeader(t.header);
      match SelectValueColumn(t.header)
      case Failure(e) => Failure(e)
      case Success(valueCol) =>
        match ResolveColumns(t, valueCol)
        case Failure(e) => Failure(e)
        case Success(full) =>
          RepairIsTransparent(t, valueCol);
          var rows := GroupKept(CleanKeys(full), ParsedValues(full, valueCol));
          if valueCol in WrittenColumns && rows != [] then Failure(ValueColumnOverwritten(valueCol))
          else
            var total := RowsTotal(rows);
            Success(Chart(valueCol, Describe(rows, total), total))
  }

  /** A header ending in "display_text" has that column chosen as the value column. */
  lemma DisplayTextChosen(hs: seq<string>)
    requires |hs| > 0 && hs[|hs| - 1] == "display_text"
    ensures SelectValueColumn(hs) == Success("display_text")
  {
    assert "display_text" !in HierarchyColumns;
    assert !Contains(Lower("display_text"), "contact root cause");
  }

  /** A file whose last header is "display_text" has that column chosen as the value column;
      once one of its cells is a positive integer, the display text overwrites the column and the
      run fails. */
  lemma DisplayTextValueColumnFails(t: Table)
    requires WellFormed(t) && |t.header| > 0 && |t.rows| > 0
    requires t.header[|t.header| - 1] == "display_text"
    requires SomeRowKept(t, "display_text")
    ensures Run(t) == Failure(ValueColumnOverwritten("display_text"))
  {
    DisplayTextChosen(t.header);
    assert "display_text" in WrittenColumns;
  }

  lemma ZeroIsNoPositiveValue()
    ensures GenerateParseValue(Text("0")) == Some(0)
  {
    assert Remove("0", IsSpace) == "0";
    assert AllDigits("0") && DigitsValue("0") == 0;
  }

  /** With no positive value the same header gives a chart without nodes: the display text
      fills no cell. */
  lemma DisplayTextValueColumnWithoutRows(t: Table)
    requires t == Table(["Level 1", "display_text"], [[Text("A"), Text("0")]])
    ensures Run(t).Success? && Run(t).value.valueColumn == "display_text" && Run(t).value.nodes == []
  {
    DisplayTextChosen(t.header);
    assert Column(t, "display_text") == [Text("0")];
    ZeroIsNoPositiveValue();
    assert ParsedValues(t, "display_text") == [Some(0)];
    assert !SomeRowKept(t, "display_text");
  }

  // ---- the pipeline stated on the input table ----------------------------------------------

  /** The level the script ends up with for row `i` and hierarchy column `col`: the cleaned
      cell when the file has the column, absent when the column had to be added. */
  function RawLevel(t: Table, i: nat, col: string): Option<string>
    requires WellFormed(t) && i < |t.rows|
  {
    match IndexOf(t.header, col)
    case None => None
    case Some(j) => GenerateCleanCell(t.rows[i][j])
  }

  function RawKey(t: Table, i: nat): (k: Key)
    requires WellFormed(t) && i < |t.rows|
    ensures Shaped(k, |HierarchyColumns|)
  {
    seq(|HierarchyColumns|, l requires 0 <= l < |HierarchyColumns| => RawLevel(t, i, HierarchyColumns[l]))
  }

  /** The level tuples of every row of the input table, in row order. */
  function RawKeys(t: Table): (keys: seq<Key>)
    requires WellFormed(t)
    ensures |keys| == |t.rows|
    ensures forall j :: 0 <= j < |t.rows| ==> keys[j] == RawKey(t, j)
  {
    seq(|t.rows|, i requires 0 <= i < |t.rows| => RawKey(t, i))
  }

  /** One hierarchy cell of the repaired table cleans to what the input table says. */
  lemma RepairedLevel(t: Table, valueCol: string, i: nat, l: nat)
    requires WellFormed(t) && valueCol in t.header
    requires i < |t.rows| && l < |HierarchyColumns|
    ensures ResolveColumns(t, valueCol).Success?
    ensures CleanLevels(ResolveColumns(t, valueCol).value, i)[l] == RawLevel(t, i, HierarchyColumns[l])
  {
    var full := ResolveColumns(t, valueCol).value;
    var missing := MissingFrom(HierarchyColumns, t.header);
    var c := HierarchyColumns[l];
    if c in t.header {
      IndexOfAppend(t.header, missing, c);
      var j := IndexOf(t.header, c).value;
      assert full.rows[i][..|t.header|][j] == t.rows[i][j];
    } else {
      MissingFromMeaning(HierarchyColumns, t.header);
      assert c in HierarchyColumns;
      IndexOfAfter(t.header, missing, c);
      GenerateCleansNoneObject();
    }
  }

  /** Repairing the columns only adds absent levels: the repaired table has the input's values
      and the input's level tuples. */
  lemma RepairIsTransparent(t: Table, valueCol: string)
    requires WellFormed(t) && valueCol in t.header
    ensures ResolveColumns(t, valueCol).Success?
    ensures ParsedValues(ResolveColumns(t, valueCol).value, valueCol) == ParsedValues(t, valueCol)
    ensures CleanKeys(ResolveColumns(t, valueCol).value) == RawKeys(t)
  {
    var full := ResolveColumns(t, valueCol).value;
    IndexOfAppend(t.header, MissingFrom(HierarchyColumns, t.header), valueCol);
    assert ParsedValues(full, valueCol) == ParsedValues(t, valueCol);
    forall i | 0 <= i < |t.rows|
      ensures CleanLevels(full, i) == RawKey(t, i)
    {
      forall l | 0 <= l < |HierarchyColumns|
        ensures CleanLevels(full, i)[l] == RawKey(t, i)[l]
      {
        RepairedLevel(t, valueCol, i, l);
      }
    }
  }

  /** The grouped rows of a run, read straight off the input table. */
  function RawRows(t: Table, valueCol: string): seq<Row>
    requires WellFormed(t) && valueCol in t.header
  {
    GroupKept(RawKeys(t), ParsedValues(t, valueCol))
  }

  /** The chart of a successful run, computed from the input table's rows. */
  lemma RunIsRawChart(t: Table)
    requires WellFormed(t) && Charts(t)
    ensures var c := Run(t).value;
            var rows := RawRows(t, c.valueColumn);
            c == Chart(c.valueColumn, Describe(rows, RowsTotal(rows)), RowsTotal(rows))
  {
    RepairIsTransparent(t, Run(t).value.valueColumn);
  }

  // ---- the rows the chart receives ----------------------------------------------------------

  /** The levels and value of every node: what the charting library sums and lays out. */
  function Rows(nodes: seq<Node>): (rows: seq<Row>)
    ensures |rows| == |nodes|
  {
    seq(|nodes|, i requires 0 <= i < |nodes| => Row(nodes[i].levels, nodes[i].value))
  }

  /** Describing the grouped rows hands the charting library exactly those rows. */
  lemma DescribedRows(rows: seq<Row>, total: nat)
    ensures Rows(Describe(rows, total)) == rows
  {
    var nodes := Describe(rows, total);
    assert forall i :: 0 <= i < |rows| ==> Rows(nodes)[i] == rows[i];
  }

  // ---- totals and shares ------------------------------------------------------------------

  /** No ticket is lost or counted twice: the grand total is the sum of the positive values of
      the value column, and the node values add up to it. */
  lemma RunKeepsTotal(t: Table)
    requires WellFormed(t) && Charts(t)
    ensures Run(t).value.total == PositiveTotal(ParsedValues(t, Run(t).value.valueColumn))
    ensures RowsTotal(Rows(Run(t).value.nodes)) == Run(t).value.total
  {
    var c := Run(t).value;
    RunIsRawChart(t);
    GroupedTotals(RawKeys(t), ParsedValues(t, c.valueColumn), |HierarchyColumns|);
    DescribedRows(RawRows(t, c.valueColumn), c.total);
  }

  lemma DescribedValues(keys: seq<Key>, vals: seq<Option<int>>)
    requires |keys| == |vals|
    requires forall j :: 0 <= j < |keys| ==> Shaped(keys[j], |HierarchyColumns|)
    ensures var rows := GroupKept(keys, vals);
            var nodes := Describe(rows, RowsTotal(rows));
            forall i :: 0 <= i < |nodes| ==>
              Valued(Row(nodes[i].levels, nodes[i].value), nodes[i].share, KeepPositive(keys, vals), RowsTotal(rows))
  {
    var rows := GroupKept(keys, vals);
    var total := RowsTotal(rows);
    var nodes := Describe(rows, total);
    GroupedTotals(keys, vals, |HierarchyColumns|);
    forall i | 0 <= i < |nodes|
      ensures Valued(Row(nodes[i].levels, nodes[i].value), nodes[i].share, KeepPositive(keys, vals), total)
    {
      assert nodes[i].share == FormatPercentage(rows[i].value, Some(total));
    }
  }

  /** Every node's value is a positive part of the total: the sum of the values of the rows
      with its levels, kept because their value is a positive integer. Its share is that part
      of the total. */
  lemma RunNodeValues(t: Table)
    requires WellFormed(t) && Charts(t)
    ensures var c := Run(t).value;
            forall i :: 0 <= i < |c.nodes| ==>
              Valued(Row(c.nodes[i].levels, c.nodes[i].value), c.nodes[i].share,
                     KeepPositive(RawKeys(t), ParsedValues(t, c.valueColumn)), c.total)
  {
    var c := Run(t).value;
    RunIsRawChart(t);
    DescribedValues(RawKeys(t), ParsedValues(t, c.valueColumn));
  }

  // ---- levels and labels ------------------------------------------------------------------

  /** The nodes are the distinct level tuples of the kept rows: each node spells the levels of
      some row whose value is a positive integer, and the levels of every such row are spelled
      by a node. */
  lemma RunNodeLevels(t: Table)
    requires WellFormed(t) && Charts(t)
    ensures DistinctRows(Rows(Run(t).value.nodes))
    ensures RowsFromKept(Rows(Run(t).value.nodes), RawKeys(t), ParsedValues(t, Run(t).value.valueColumn))
    ensures KeptInRows(Rows(Run(t).value.nodes), RawKeys(t), ParsedValues(t, Run(t).value.valueColumn))
  {
    var c := Run(t).value;
    var keys, vals := RawKeys(t), ParsedValues(t, c.valueColumn);
    RunIsRawChart(t);
    DescribedRows(GroupKept(keys, vals), c.total);
    GroupedShape(keys, vals, |HierarchyColumns|);
    GroupedFromKept(keys, vals);
    KeptGrouped(keys, vals);
  }

  /** A node's label is "Root" when it has no level and otherwise its last non-empty level;
      its hover path is "Root" or its non-empty levels joined with " > ". */
  predicate Labelled(n: Node) {
    var parts := NonEmptyLevels(n.levels);
    && (parts == [] ==> n.shown == RootLabel && n.hover == RootLabel)
    && (parts != [] ==> n.shown == parts[|parts| - 1] && n.hover == JoinPath(parts))
  }

  /** Every described node is labelled by its levels. */
  lemma DescribedLabels(rows: seq<Row>, total: nat)
    ensures forall i :: 0 <= i < |rows| ==> Labelled(Describe(rows, total)[i])
  {
    forall i | 0 <= i < |rows|
      ensures Labelled(Describe(rows, total)[i])
    {
      LastNonEmptyIsLastLevel(rows[i].levels);
    }
  }

  /** Each node has four levels; its label is "Root" when they are all empty and otherwise the
      last non-empty level, and its hover path is the non-empty levels joined with " > ". */
  lemma RunNodeLabels(t: Table)
    requires WellFormed(t) && Charts(t)
    ensures var c := Run(t).value;
            forall i :: 0 <= i < |c.nodes| ==> |c.nodes[i].levels| == |HierarchyColumns| && Labelled(c.nodes[i])
  {
    var c := Run(t).value;
    RunIsRawChart(t);
    GroupedShape(RawKeys(t), ParsedValues(t, c.valueColumn), |HierarchyColumns|);
    DescribedLabels(RawRows(t, c.valueColumn), c.total);
  }
}
