/** Paths and labels of a grouped row whose levels are strings, `''` marking an absent level:
    create_treemap.py stops at the first `''`, generate_treemap.py skips every `''`. */
module Labels {
  import opened Wrappers
  import opened Seqs
  import opened Text

  /** The label of a row with no level at all. */
  const RootLabel: string := "Root"

  predicate IsEmptyLevel(c: string) {
    c == ""
  }

  /** The levels before the first `''`: the prefix create_treemap.py's loops collect. */
  function PathPrefix(cells: seq<string>): (p: seq<string>)
    ensures p <= cells
    ensures forall i :: 0 <= i < |p| ==> p[i] != ""
    ensures |p| == |cells| || cells[|p|] == ""
  {
    if cells == [] || cells[0] == "" then []
    else [cells[0]] + PathPrefix(cells[1..])
  }

  /** `PathPrefix` is the only prefix free of `''` that stops at the end or at a `''`, so it is
      the longest prefix without an empty level. */
  lemma {:induction false} PathPrefixUnique(cells: seq<string>, p: seq<string>)
    requires p <= cells
    requires forall i :: 0 <= i < |p| ==> p[i] != ""
    requires |p| == |cells| || cells[|p|] == ""
    ensures p == PathPrefix(cells)
  {
    if p != [] {
      assert cells[0] == p[0];
      PathPrefixUnique(cells[1..], p[1..]);
    }
  }

  /** create_treemap.py's `get_path_tuple`: the prefix as a tuple, or `None` when it is empty. */
  function PathTuple(cells: seq<string>): (r: Option<seq<string>>)
    ensures r.None? <==> (|cells| == 0 || cells[0] == "")
    ensures r.Some? ==> r.value == PathPrefix(cells) && 0 < |r.value| <= |cells|
  {
    var p := PathPrefix(cells);
    if p == [] then None else Some(p)
  }

  /** Level `k` is non-empty, so is every shallower level, and the next level is empty or
      missing: `k` is where create_treemap.py's loop stops. */
  predicate EndsPrefixAt(cells: seq<string>, k: nat) {
    && k < |cells|
    && (forall j :: 0 <= j <= k ==> cells[j] != "")
    && (k + 1 == |cells| || cells[k + 1] == "")
  }

  /** Level `k` is non-empty and every deeper level is empty. */
  predicate IsDeepestLevel(cells: seq<string>, k: nat) {
    && k < |cells|
    && cells[k] != ""
    && (forall j :: k < j < |cells| ==> cells[j] == "")
  }

  /** The label of create_treemap.py's `get_display_text`: the last level of the prefix. */
  function CreateLabel(cells: seq<string>): (shown: string)
    ensures (|cells| == 0 || cells[0] == "") ==> shown == RootLabel
    ensures |cells| > 0 && cells[0] != "" ==>
              exists k: nat :: EndsPrefixAt(cells, k) && cells[k] == shown
  {
    var p := PathPrefix(cells);
    if p == [] then RootLabel
    else
      assert cells[|p| - 1] == p[|p| - 1];
      p[|p| - 1]
  }

  /** generate_treemap.py's `get_last_non_empty`: scanning from the deepest level, the first
      non-empty one, or "Root". Empty levels before it do not matter. */
  function LastNonEmpty(cells: seq<string>): (shown: string)
    ensures (forall i :: 0 <= i < |cells| ==> cells[i] == "") ==> shown == RootLabel
    ensures (exists i :: 0 <= i < |cells| && cells[i] != "") ==>
              exists k: nat :: IsDeepestLevel(cells, k) && cells[k] == shown
  {
    if cells == [] then RootLabel
    else if cells[|cells| - 1] != "" then
      assert IsDeepestLevel(cells, |cells| - 1);
      cells[|cells| - 1]
    else
      var init := cells[..|cells| - 1];
      var deeper := LastNonEmpty(init);
      assert forall i :: 0 <= i < |init| ==> init[i] == cells[i];
      assert forall k: nat :: IsDeepestLevel(init, k) ==> IsDeepestLevel(cells, k);
      deeper
  }

  /** The non-empty levels, in column order. */
  function NonEmptyLevels(cells: seq<string>): seq<string> {
    Remove(cells, IsEmptyLevel)
  }

  /** The hierarchical label of generate_treemap.py's `generate_hover_text`: "Root" when no level
      is present; otherwise it starts with the shallowest present level and ends with the label
      the same script shows for the row. */
  function HoverPath(cells: seq<string>): (h: string)
    ensures NonEmptyLevels(cells) == [] ==> h == RootLabel
    ensures NonEmptyLevels(cells) != [] ==>
              var parts := NonEmptyLevels(cells);
              && |parts[0]| <= |h| && h[..|parts[0]|] == parts[0]
              && |LastNonEmpty(cells)| <= |h|
              && h[|h| - |LastNonEmpty(cells)|..] == LastNonEmpty(cells)
  {
    var parts := NonEmptyLevels(cells);
    LastNonEmptyIsLastLevel(cells);
    if parts == [] then RootLabel else JoinPath(parts)
  }

  /** Absent levels form a suffix: once a level is empty, every deeper level is empty. */
  predicate ContiguousSuffix(cells: seq<string>) {
    forall i, j :: 0 <= i < j < |cells| && cells[i] == "" ==> cells[j] == ""
  }

  lemma NonEmptyStep(cells: seq<string>)
    requires cells != []
    ensures NonEmptyLevels(cells) == (if cells[0] == "" then [] else [cells[0]]) + NonEmptyLevels(cells[1..])
  {
  }

  /** Contiguity passes to the deeper levels; below an empty first level all are empty. */
  lemma ContiguousTail(cells: seq<string>)
    requires cells != [] && ContiguousSuffix(cells)
    ensures ContiguousSuffix(cells[1..])
    ensures cells[0] == "" ==> forall k :: 0 <= k < |cells| - 1 ==> IsEmptyLevel(cells[1..][k])
  {
    var tail := cells[1..];
    forall i, j | 0 <= i < j < |tail| && tail[i] == ""
      ensures tail[j] == ""
    {
      assert cells[i + 1] == tail[i] && cells[j + 1] == tail[j];
    }
    if cells[0] == "" {
      forall k | 0 <= k < |tail|
        ensures IsEmptyLevel(tail[k])
      {
        assert cells[k + 1] == tail[k];
      }
    }
  }

  /** A gap below a non-empty first level is a gap of the deeper levels. */
  lemma GapInTail(cells: seq<string>)
    requires cells != [] && cells[0] != "" && !ContiguousSuffix(cells)
    ensures !ContiguousSuffix(cells[1..])
  {
    var i, j :| 0 <= i < j < |cells| && cells[i] == "" && cells[j] != "";
    assert cells[1..][i - 1] == "" && cells[1..][j - 1] != "";
  }

  /** A row with some non-empty level has some non-empty level left after removal. */
  lemma SomeLevelKept(cells: seq<string>, j: nat)
    requires j < |cells| && cells[j] != ""
    ensures NonEmptyLevels(cells) != []
  {
    assert cells[j] in multiset(cells);
    RemoveKeepsOthers(cells, IsEmptyLevel, cells[j]);
    assert cells[j] in multiset(NonEmptyLevels(cells));
  }

  /** Up to the first empty level both rules see the same cells. */
  lemma {:induction false} PrefixBeforeNonEmpty(cells: seq<string>)
    ensures PathPrefix(cells) <= NonEmptyLevels(cells)
  {
    if cells != [] && cells[0] != "" {
      PrefixBeforeNonEmpty(cells[1..]);
      NonEmptyStep(cells);
    }
  }

  /** Without a gap, nothing lies beyond the first empty level. */
  lemma {:induction false} ContiguousPrefixIsNonEmpty(cells: seq<string>)
    requires ContiguousSuffix(cells)
    ensures NonEmptyLevels(cells) == PathPrefix(cells)
  {
    if cells != [] {
      ContiguousTail(cells);
      NonEmptyStep(cells);
      if cells[0] == "" {
        RemoveAllDropped(cells[1..], IsEmptyLevel);
      } else {
        ContiguousPrefixIsNonEmpty(cells[1..]);
      }
    }
  }

  /** With a gap, generate's path keeps a level beyond create's prefix. */
  lemma {:induction false} GapPrefixIsShorter(cells: seq<string>)
    requires !ContiguousSuffix(cells)
    ensures |PathPrefix(cells)| < |NonEmptyLevels(cells)|
  {
    NonEmptyStep(cells);
    if cells[0] == "" {
      var i, j :| 0 <= i < j < |cells| && cells[i] == "" && cells[j] != "";
      assert cells[1..][j - 1] == cells[j];
      SomeLevelKept(cells[1..], j - 1);
    } else {
      GapInTail(cells);
      GapPrefixIsShorter(cells[1..]);
    }
  }

  /** The prefix begins the non-empty levels, and equals them exactly on contiguous rows. */
  lemma PrefixOfNonEmpty(cells: seq<string>)
    ensures PathPrefix(cells) <= NonEmptyLevels(cells)
    ensures ContiguousSuffix(cells) ==> NonEmptyLevels(cells) == PathPrefix(cells)
    ensures !ContiguousSuffix(cells) ==> |PathPrefix(cells)| < |NonEmptyLevels(cells)|
  {
    PrefixBeforeNonEmpty(cells);
    if ContiguousSuffix(cells) {
      ContiguousPrefixIsNonEmpty(cells);
    } else {
      GapPrefixIsShorter(cells);
    }
  }

  /** The hover path equals the prefix exactly when absence is a contiguous suffix. */
  lemma NonEmptyIsPrefixIffContiguous(cells: seq<string>)
    ensures NonEmptyLevels(cells) == PathPrefix(cells) <==> ContiguousSuffix(cells)
  {
    PrefixOfNonEmpty(cells);
  }

  /** generate's label is the deepest non-empty level, which is the last of the non-empty levels. */
  lemma {:induction false} LastNonEmptyIsLastLevel(cells: seq<string>)
    ensures NonEmptyLevels(cells) == [] ==> LastNonEmpty(cells) == RootLabel
    ensures NonEmptyLevels(cells) != [] ==>
              LastNonEmpty(cells) == NonEmptyLevels(cells)[|NonEmptyLevels(cells)| - 1]
  {
    if cells != [] {
      var init := cells[..|cells| - 1];
      var last := cells[|cells| - 1];
      assert cells == init + [last];
      RemoveConcat(init, [last], IsEmptyLevel);
      assert Remove([last], IsEmptyLevel) == (if last == "" then [] else [last]);
      if last == "" {
        LastNonEmptyIsLastLevel(init);
      }
    }
  }

  /** On rows whose absent levels form a suffix, create_treemap.py's label and
      generate_treemap.py's label coincide. */
  lemma LabelsAgreeOnContiguousRows(cells: seq<string>)
    requires ContiguousSuffix(cells)
    ensures CreateLabel(cells) == LastNonEmpty(cells)
  {
    ContiguousPrefixIsNonEmpty(cells);
    LastNonEmptyIsLastLevel(cells);
    var p := PathPrefix(cells);
    assert p == [] <==> (cells == [] || cells[0] == "");
  }

  /** With a gap the two labels differ: create stops at the gap, generate skips it. */
  lemma LabelsDisagreeAcrossGap()
    ensures CreateLabel(["A", "", "C", ""]) == "A"
    ensures LastNonEmpty(["A", "", "C", ""]) == "C"
  {
    var cells := ["A", "", "C", ""];
    assert cells[1..] == ["", "C", ""];
    assert PathPrefix(cells[1..]) == [];
    assert PathPrefix(cells) == ["A"];
    assert cells[..3] == ["A", "", "C"];
  }

  /** The hover path reads "Root" exactly when no level is present or the only present level is
      itself the text "Root": two or more levels always join to something longer. */
  lemma HoverPathIsRoot(cells: seq<string>)
    ensures HoverPath(cells) == RootLabel <==>
              NonEmptyLevels(cells) == [] || NonEmptyLevels(cells) == [RootLabel]
  {
    var parts := NonEmptyLevels(cells);
    if |parts| >= 2 {
      var tail := JoinPath(parts[1..]);
      assert parts[1..][0] == parts[1];
      assert !IsEmptyLevel(parts[1]);
      assert JoinPath(parts) == parts[0] + PathSeparator + tail;
      assert |HoverPath(cells)| >= 1 + |PathSeparator| + 1;
    }
  }

  /** A level literally named "Root" collides with the root label: the row ("Root", "", "", "")
      has a level, yet its hover path is the same as that of a row with none. */
  lemma HoverRootCollision()
    ensures NonEmptyLevels(["Root", "", "", ""]) == [RootLabel]
    ensures HoverPath(["Root", "", "", ""]) == HoverPath(["", "", "", ""]) == RootLabel
  {
    var cells := ["Root", "", "", ""];
    var empty := ["", "", "", ""];
    assert cells[1..] == ["", "", ""] && empty[1..] == ["", "", ""];
    RemoveAllDropped(["", "", ""], IsEmptyLevel);
    NonEmptyStep(cells);
    NonEmptyStep(empty);
  }

  /** On contiguous rows the hover path is create_treemap.py's path tuple joined with " > ". */
  lemma HoverPathIsJoinedTuple(cells: seq<string>)
    requires ContiguousSuffix(cells)
    ensures PathTuple(cells).None? ==> HoverPath(cells) == RootLabel
    ensures PathTuple(cells).Some? ==> HoverPath(cells) == JoinPath(PathTuple(cells).value)
  {
    ContiguousPrefixIsNonEmpty(cells);
  }
}
