/** The column rules of generate_treemap.py's `main`: which header is the value column, and what
    happens when hierarchy or value columns are absent. */
module Schema {
  import opened Wrappers
  import opened Seqs
  import opened Text
  import opened Frame

  /** The four hierarchy levels, shallowest first (both scripts use the same names). */
  const HierarchyColumns: seq<string> := ["Level 1", "Level 2", "Level 3", "Level 4"]

  /** Header fragments that mark a value column in the fallback rule. */
  const ValueKeywords: seq<string> := ["Tickets", "Count", "Volume", "Total"]

  /** Some keyword occurs (case-sensitively) in the header. */
  predicate HasKeyword(h: string) {
    exists k :: 0 <= k < |ValueKeywords| && Contains(h, ValueKeywords[k])
  }

  /** The first rule: a last header that is no hierarchy level and does not mention
      "contact root cause" in any letter case is taken as the value column. */
  predicate AutoDetectable(h: string) {
    h !in HierarchyColumns && !Contains(Lower(h), "contact root cause")
  }

  /** The position of the first header carrying a keyword. */
  function FirstWithKeyword(hs: seq<string>): (r: Option<nat>)
    ensures r.None? <==> forall i :: 0 <= i < |hs| ==> !HasKeyword(hs[i])
    ensures r.Some? ==> r.value < |hs| && HasKeyword(hs[r.value])
    ensures r.Some? ==> forall j :: 0 <= j < r.value ==> !HasKeyword(hs[j])
  {
    if hs == [] then None
    else if HasKeyword(hs[0]) then Some(0)
    else
      match FirstWithKeyword(hs[1..])
      case None => None
      case Some(j) => Some(j + 1)
  }

  /** Value-column detection: the last header when it qualifies, otherwise the first header with
      a keyword, otherwise a fatal error. The caller has ruled out an empty header row. */
  function SelectValueColumn(hs: seq<string>): (r: Result<string, Fault>)
    requires |hs| > 0
    ensures AutoDetectable(hs[|hs| - 1]) ==> r == Success(hs[|hs| - 1])
    ensures !AutoDetectable(hs[|hs| - 1]) ==>
              (r.Success? <==> exists i :: 0 <= i < |hs| && HasKeyword(hs[i]))
    ensures !AutoDetectable(hs[|hs| - 1]) && r.Success? ==>
              exists i :: 0 <= i < |hs| && hs[i] == r.value && HasKeyword(hs[i])
                          && forall j :: 0 <= j < i ==> !HasKeyword(hs[j])
    ensures r.Failure? ==> r.error == UndetectedValueColumn
  {
    var last := hs[|hs| - 1];
    if AutoDetectable(last) then Success(last)
    else
      match FirstWithKeyword(hs)
      case Some(i) => Success(hs[i])
      case None => Failure(UndetectedValueColumn)
  }

  /** No hierarchy column name carries a value keyword. */
  lemma HierarchyHasNoKeyword(h: string)
    requires h in HierarchyColumns
    ensures !HasKeyword(h)
  {
    forall k, i: nat | 0 <= k < |ValueKeywords|
      ensures !OccursAt(h, ValueKeywords[k], i)
    {
      var w := ValueKeywords[k];
      if i + |w| <= |h| {
        assert h[i..i + |w|][0] == h[i];
        assert h[i] != w[0];
      }
    }
  }

  /** The chosen value column is always one of the headers and never a hierarchy column. */
  lemma ValueColumnIsHeader(hs: seq<string>)
    requires |hs| > 0
    ensures SelectValueColumn(hs).Success? ==> SelectValueColumn(hs).value in hs
    ensures SelectValueColumn(hs).Success? ==> SelectValueColumn(hs).value !in HierarchyColumns
  {
    var r := SelectValueColumn(hs);
    if r.Success? && r.value in HierarchyColumns {
      HierarchyHasNoKeyword(r.value);
    }
  }

  /** The entries of `required` that are not headers, in the order of `required`. */
  function MissingFrom(required: seq<string>, hs: seq<string>): (m: seq<string>)
    ensures |m| <= |required|
    ensures forall k :: 0 <= k < |m| ==> m[k] !in hs
  {
    if required == [] then []
    else
      var rest := MissingFrom(required[1..], hs);
      if required[0] in hs then rest else [required[0]] + rest
  }

  /** Exactly the entries of `required` that are not headers are missing, in their order. */
  lemma {:induction false} MissingFromMeaning(required: seq<string>, hs: seq<string>)
    ensures forall c :: c in MissingFrom(required, hs) <==> c in required && c !in hs
    ensures IsSubsequence(MissingFrom(required, hs), required)
  {
    if required != [] {
      var x, tail := required[0], required[1..];
      assert required == [x] + tail;
      MissingFromMeaning(tail, hs);
      var rest := MissingFrom(tail, hs);
      if x !in hs {
        assert ([x] + rest)[1..] == rest;
      } else if rest != [] && rest[0] == x {
        assert rest[0] !in hs;
      }
    }
  }

  lemma MissingFromCons(x: string, rest: seq<string>, hs: seq<string>)
    ensures MissingFrom([x] + rest, hs) == (if x in hs then [] else [x]) + MissingFrom(rest, hs)
  {
    assert ([x] + rest)[0] == x && ([x] + rest)[1..] == rest;
  }

  /** The missing entries of two lists are those of each, in order. */
  lemma {:induction false} MissingFromAppend(a: seq<string>, b: seq<string>, hs: seq<string>)
    ensures MissingFrom(a + b, hs) == MissingFrom(a, hs) + MissingFrom(b, hs)
  {
    if a == [] {
      assert a + b == b;
    } else {
      var x, tail := a[0], a[1..];
      assert a == [x] + tail;
      assert a + b == [x] + (tail + b);
      MissingFromAppend(tail, b, hs);
      MissingFromCons(x, tail + b, hs);
      MissingFromCons(x, tail, hs);
    }
  }

  lemma {:induction false} MissingNone(required: seq<string>, hs: seq<string>)
    requires forall c :: c in required ==> c in hs
    ensures MissingFrom(required, hs) == []
  {
    if required != [] {
      MissingNone(required[1..], hs);
    }
  }

  /** generate_treemap.py's column repair: missing hierarchy columns are added filled with `None`; a missing value
      column is fatal; the final loop adds any hierarchy column still absent. */
  function ResolveColumns(t: Table, valueCol: string): (r: Result<Table, Fault>)
    requires WellFormed(t)
    ensures r.Success? <==> valueCol in t.header
    ensures r.Failure? ==> r.error == MissingValueColumn(valueCol)
    ensures r.Success? ==> WellFormed(r.value) && |r.value.rows| == |t.rows|
    ensures r.Success? ==> forall c :: c in HierarchyColumns ==> c in r.value.header
    ensures r.Success? ==>
              r.value.header == t.header + MissingFrom(HierarchyColumns, t.header)
    ensures r.Success? ==> forall i :: 0 <= i < |t.rows| ==>
              r.value.rows[i][..|t.header|] == t.rows[i]
              && forall k :: |t.header| <= k < |r.value.rows[i]| ==> r.value.rows[i][k] == NoneObject
  {
    var missing := MissingFrom(HierarchyColumns + [valueCol], t.header);
    MissingFromMeaning(HierarchyColumns + [valueCol], t.header);
    MissingFromMeaning(HierarchyColumns, t.header);
    var missingHierarchy := MissingFrom(HierarchyColumns, t.header);
    var t1 := if missing != [] then AddNoneColumns(t, missingHierarchy) else t;
    if missing != [] && valueCol in missing then Failure(MissingValueColumn(valueCol))
    else
      MissingFromAppend(HierarchyColumns, [valueCol], t.header);
      var stillMissing := MissingFrom(HierarchyColumns, t1.header);
      MissingNone(HierarchyColumns, t1.header);
      Success(AddNoneColumns(t1, stillMissing))
  }

  /** Once a value column has been selected, the missing-value-column error cannot occur. */
  lemma SelectedColumnResolves(t: Table)
    requires WellFormed(t) && |t.header| > 0
    requires SelectValueColumn(t.header).Success?
    ensures ResolveColumns(t, SelectValueColumn(t.header).value).Success?
  {
    ValueColumnIsHeader(t.header);
  }
}
