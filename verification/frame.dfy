/** The loaded CSV as the scripts see it: a header row and rows of raw cells. */
module Frame {
  import opened Wrappers

  /** One cell as pandas holds it: a string, NaN, or the Python `None` object (a column added
      with `df[col] = None`). `read_csv` gives NaN for an empty field and for its default NA
      tokens ("NA", "NULL", "N/A", "nan" and, in recent pandas, "None"). */
  datatype RawCell = Text(s: string) | Missing | NoneObject

  /** `astype(str)` on one cell. */
  function AsStr(c: RawCell): string {
    match c
    case Text(s) => s
    case Missing => "nan"
    case NoneObject => "None"
  }

  /** The header is the column list `read_csv` produces, in which duplicate names are already
      made unique ("Total", "Total.1"); `IndexOf` therefore finds the one column of each name. */
  datatype Table = Table(header: seq<string>, rows: seq<seq<RawCell>>)

  /** Every row has one cell per header entry. */
  predicate WellFormed(t: Table) {
    forall i :: 0 <= i < |t.rows| ==> |t.rows[i]| == |t.header|
  }

  /** The reasons either script stops without producing a chart. */
  datatype Fault =
    | EmptyFile                          // `df_raw.empty`
    | UndetectedValueColumn              // no header qualifies as the value column
    | MissingValueColumn(name: string)   // the chosen value column is not a header
    | MissingColumn(name: string)        // a `KeyError` on a fixed column name
    | ValueColumnOverwritten(name: string) // the value column shares its name with a column the
                                           // script writes into the grouped rows, so the chart
                                           // cannot read numbers

  /** The position of the first header equal to `name`. */
  function IndexOf(hs: seq<string>, name: string): (r: Option<nat>)
    ensures r.Some? <==> name in hs
    ensures r.Some? ==> r.value < |hs| && hs[r.value] == name
    ensures r.Some? ==> forall j :: 0 <= j < r.value ==> hs[j] != name
  {
    if hs == [] then None
    else if hs[0] == name then Some(0)
    else
      match IndexOf(hs[1..], name)
      case None => None
      case Some(j) => Some(j + 1)
  }

  lemma IndexOfCons(x: string, rest: seq<string>, name: string)
    ensures IndexOf([x] + rest, name) ==
              if x == name then Some(0)
              else if IndexOf(rest, name).None? then None
              else Some(IndexOf(rest, name).value + 1)
  {
    assert ([x] + rest)[0] == x && ([x] + rest)[1..] == rest;
  }

  /** Appending headers does not move the first occurrence of a name already present. */
  lemma {:induction false} IndexOfAppend(a: seq<string>, b: seq<string>, name: string)
    requires name in a
    ensures IndexOf(a + b, name) == IndexOf(a, name)
  {
    var x, tail := a[0], a[1..];
    assert a == [x] + tail && a + b == [x] + (tail + b);
    IndexOfCons(x, tail + b, name);
    IndexOfCons(x, tail, name);
    if x != name {
      IndexOfAppend(tail, b, name);
    }
  }

  /** A name that is not among the first headers is found after them, if at all. */
  lemma {:induction false} IndexOfAfter(a: seq<string>, b: seq<string>, name: string)
    requires name !in a && name in b
    ensures IndexOf(a + b, name) == Some(|a| + IndexOf(b, name).value)
  {
    if a == [] {
      assert a + b == b;
    } else {
      var x, tail := a[0], a[1..];
      assert a == [x] + tail && a + b == [x] + (tail + b);
      IndexOfCons(x, tail + b, name);
      IndexOfAfter(tail, b, name);
    }
  }

  /** `df[name]`: the cells of the column called `name`, one per row. */
  function Column(t: Table, name: string): (col: seq<RawCell>)
    requires WellFormed(t) && name in t.header
    ensures |col| == |t.rows|
  {
    var j := IndexOf(t.header, name).value;
    seq(|t.rows|, i requires 0 <= i < |t.rows| => t.rows[i][j])
  }

  /** `df[name] = None` for a column that does not exist yet. */
  function AddNoneColumn(t: Table, name: string): (r: Table)
    requires WellFormed(t)
    ensures WellFormed(r)
    ensures r.header == t.header + [name]
    ensures |r.rows| == |t.rows|
    ensures forall i :: 0 <= i < |t.rows| ==> r.rows[i] == t.rows[i] + [NoneObject]
  {
    Table(t.header + [name], seq(|t.rows|, i requires 0 <= i < |t.rows| => t.rows[i] + [NoneObject]))
  }

  /** Adds the columns `names`, in order, each filled with `None`. */
  function AddNoneColumns(t: Table, names: seq<string>): (r: Table)
    requires WellFormed(t)
    ensures WellFormed(r)
    ensures r.header == t.header + names
    ensures |r.rows| == |t.rows|
    ensures forall i :: 0 <= i < |t.rows| ==>
              |r.rows[i]| == |t.rows[i]| + |names|
              && r.rows[i][..|t.rows[i]|] == t.rows[i]
              && forall k :: |t.rows[i]| <= k < |r.rows[i]| ==> r.rows[i][k] == NoneObject
    decreases |names|
  {
    if names == [] then t
    else
      var t1 := AddNoneColumn(t, names[0]);
      var r := AddNoneColumns(t1, names[1..]);
      assert r.header == t.header + names by {
        assert names == [names[0]] + names[1..];
      }
      assert forall i :: 0 <= i < |t.rows| ==> r.rows[i][..|t.rows[i]|] == t.rows[i] by {
        forall i | 0 <= i < |t.rows|
          ensures r.rows[i][..|t.rows[i]|] == t.rows[i]
        {
          assert r.rows[i][..|t1.rows[i]|] == t1.rows[i];
          assert t1.rows[i][..|t.rows[i]|] == t.rows[i];
        }
      }
      r
  }
}
