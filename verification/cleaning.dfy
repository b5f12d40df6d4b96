/** Cell cleaning of both scripts: hierarchy cells become trimmed strings or absent, and value
    cells are parsed, with rows kept only when their value is a positive integer. */
module Cleaning {
  import opened Wrappers
  import opened Seqs
  import opened Text
  import opened Frame
  import opened Aggregation

  /** The strings generate_treemap.py's hierarchy cleaning turns into `None`. */
  const GenerateSentinels: seq<string> := ["", "nan", "None"]

  /** The strings create_treemap.py's level cleaning turns into `None`: no `'None'`. */
  const CreateSentinels: seq<string> := ["", "nan"]

  /** One cell rendered as text, stripped, and made absent when the result is a sentinel. */
  function CleanCell(c: RawCell, sentinels: seq<string>): Option<string> {
    var s := Strip(AsStr(c));
    if s in sentinels then None else Some(s)
  }

  /** generate_treemap.py's `clean_hierarchy_column`, per cell: absent when the trimmed text is
      empty, "nan" or "None", otherwise that trimmed text. */
  function GenerateCleanCell(c: RawCell): (r: Option<string>)
    ensures r.None? <==> Strip(AsStr(c)) in GenerateSentinels
    ensures r.Some? ==> r.value == Strip(AsStr(c)) && r.value != ""
  {
    CleanCell(c, GenerateSentinels)
  }

  /** create_treemap.py's level cleaning, per cell of a column that exists: absent when the
      trimmed text is empty or "nan", otherwise that trimmed text, "None" included. */
  function CreateCleanCell(c: RawCell): (r: Option<string>)
    ensures r.None? <==> Strip(AsStr(c)) in CreateSentinels
    ensures r.Some? ==> r.value == Strip(AsStr(c)) && r.value != ""
  {
    CleanCell(c, CreateSentinels)
  }

  /** How pandas stores a cleaned cell if it is cleaned again: `None` stays the None object. */
  function Reify(o: Option<string>): RawCell {
    if o.None? then NoneObject else Text(o.value)
  }

  /** A cleaned cell is absent exactly when its stripped text is a sentinel; otherwise it is that
      stripped text, which is non-empty and has no surrounding whitespace. */
  lemma CleanCellMeaning(c: RawCell, sentinels: seq<string>)
    requires "" in sentinels
    ensures CleanCell(c, sentinels).None? <==> Strip(AsStr(c)) in sentinels
    ensures CleanCell(c, sentinels).Some? ==>
              var v := CleanCell(c, sentinels).value;
              && v == Strip(AsStr(c)) && v != "" && v !in sentinels
              && !IsSpace(v[0]) && !IsSpace(v[|v| - 1])
              && exists i :: StrippedAt(AsStr(c), i, v)
  {
    StripMeaning(AsStr(c));
  }

  /** The texts of a NaN cell and of the `None` object carry no whitespace. */
  lemma StripSentinelTexts()
    ensures Strip(AsStr(Missing)) == AsStr(Missing) == "nan"
    ensures Strip(AsStr(NoneObject)) == AsStr(NoneObject) == "None"
  {
    StripOfStripped("nan");
    StripOfStripped("None");
  }

  /** Unlike generate_treemap.py, create_treemap.py does not treat "None" as absent. */
  lemma NoneIsNoCreateSentinel()
    ensures "None" !in CreateSentinels && "None" in GenerateSentinels
  {
  }

  /** A cell whose text is already stripped is cleaned to that text or to `None`. */
  lemma CleanStripped(c: RawCell, sentinels: seq<string>)
    requires Strip(AsStr(c)) == AsStr(c)
    ensures CleanCell(c, sentinels) == if AsStr(c) in sentinels then None else Some(AsStr(c))
  {
  }

  /** Cleaning a generate-cleaned column again changes nothing. */
  lemma GenerateCleanIdempotent(c: RawCell)
    ensures GenerateCleanCell(Reify(GenerateCleanCell(c))) == GenerateCleanCell(c)
  {
    var o := GenerateCleanCell(c);
    if o.None? {
      assert Reify(o) == NoneObject;
      StripSentinelTexts();
    } else {
      var v := o.value;
      assert v == Strip(AsStr(c)) && v !in GenerateSentinels;
      StripIdempotent(AsStr(c));
      assert Reify(o) == Text(v);
      CleanStripped(Text(v), GenerateSentinels);
    }
  }

  /** A column added as `None` cleans to absent levels in generate_treemap.py. */
  lemma GenerateCleansNoneObject()
    ensures GenerateCleanCell(NoneObject) == None
  {
    StripSentinelTexts();
    NoneIsNoCreateSentinel();
  }

  /** A NaN cell (an empty field or an NA token) is absent after create_treemap.py's cleaning. */
  lemma CreateCleansMissing()
    ensures CreateCleanCell(Missing) == None
  {
    StripSentinelTexts();
  }

  /** A `None` object would survive create_treemap.py's cleaning as the text "None". The script
      itself never meets this case: it adds a missing level column as `None` only after its
      cleaning loop, so the added cells stay absent (see `CreateTreemap.Level`). The lemma shows
      why running generate_treemap.py's repair before create's cleaning would not be harmless. */
  lemma CreateKeepsNoneObject()
    ensures CreateCleanCell(NoneObject) == Some("None")
  {
    StripSentinelTexts();
    NoneIsNoCreateSentinel();
  }

  /** create_treemap.py's cleaning is not idempotent: an absent cell, stored as `None` and
      cleaned again, becomes the label "None". The script cleans each column once, so this
      never happens inside it; the lemma contrasts it with `GenerateCleanIdempotent`. */
  lemma CreateCleanNotIdempotent()
    ensures CreateCleanCell(Missing) == None
    ensures CreateCleanCell(Reify(CreateCleanCell(Missing))) == Some("None")
  {
    CreateCleansMissing();
    assert Reify(None) == NoneObject;
    CreateKeepsNoneObject();
  }

  /** The two hierarchy cleanings disagree exactly on cells whose stripped text is "None". */
  lemma CleanersDiffer(c: RawCell)
    ensures GenerateCleanCell(c) != CreateCleanCell(c) <==> Strip(AsStr(c)) == "None"
    ensures Strip(AsStr(c)) == "None" ==> GenerateCleanCell(c) == None && CreateCleanCell(c) == Some("None")
  {
    if Strip(AsStr(c)) == "None" {
      CleanersDifferOnNone(c);
    } else {
      CleanersAgreeElsewhere(c);
    }
  }

  lemma CleanersDifferOnNone(c: RawCell)
    requires Strip(AsStr(c)) == "None"
    ensures GenerateCleanCell(c) == None && CreateCleanCell(c) == Some("None")
  {
    SentinelsDiffer(Strip(AsStr(c)));
  }

  lemma CleanersAgreeElsewhere(c: RawCell)
    requires Strip(AsStr(c)) != "None"
    ensures GenerateCleanCell(c) == CreateCleanCell(c)
  {
    SentinelsDiffer(Strip(AsStr(c)));
  }

  /** The two sentinel lists differ only in "None". */
  lemma SentinelsDiffer(s: string)
    ensures (s in GenerateSentinels) != (s in CreateSentinels) <==> s == "None"
    ensures s == "None" ==> s in GenerateSentinels && s !in CreateSentinels
  {
  }

  /** Cleaned cells never hold the empty string, so `fillna('')` can be undone. */
  lemma CleanedNotEmptyText(cells: seq<RawCell>, sentinels: seq<string>)
    requires "" in sentinels
    ensures NoEmptyText(seq(|cells|, i requires 0 <= i < |cells| => CleanCell(cells[i], sentinels)))
  {
  }

  // ---- value cells -----------------------------------------------------------------------

  predicate IsBlank(c: char) {
    c == ' '
  }

  /** generate_treemap.py's `clean_value_column` before the filter: every whitespace character is
      removed, then the text is parsed. A cell is a number exactly when what is left is an
      optionally signed digit string. */
  function GenerateParseValue(c: RawCell): (r: Option<int>)
    ensures r.Some? <==> IsIntegerLiteral(Remove(AsStr(c), IsSpace))
  {
    ParseInt(Remove(AsStr(c), IsSpace))
  }

  /** create_treemap.py's value cleaning: strip, remove only the space character, then parse. A
      cell is a number exactly when what is left is an optionally signed digit string. */
  function CreateParseValue(c: RawCell): (r: Option<int>)
    ensures r.Some? <==> IsIntegerLiteral(Remove(Strip(AsStr(c)), IsBlank))
  {
    ParseInt(Remove(Strip(AsStr(c)), IsBlank))
  }

  /** Decimal digits carry no whitespace, so removing whitespace keeps them. */
  lemma DecimalHasNoSpace(n: nat)
    ensures Remove(Decimal(n), IsSpace) == Decimal(n)
    ensures Remove(Decimal(n), IsBlank) == Decimal(n)
  {
    var d := Decimal(n);
    assert forall k :: 0 <= k < |d| ==> IsDigit(d[k]) && !IsSpace(d[k]) && !IsBlank(d[k]);
  }

  /** generate_treemap.py reads a rendered number back, whatever whitespace surrounds it. */
  lemma GenerateReadsDecimal(before: string, n: nat, after: string)
    requires AllSpace(before) && AllSpace(after)
    ensures GenerateParseValue(Text(before + Decimal(n) + after)) == Some(n)
  {
    var d := Decimal(n);
    RemoveConcat(before + d, after, IsSpace);
    RemoveConcat(before, d, IsSpace);
    RemoveAllDropped(before, IsSpace);
    RemoveAllDropped(after, IsSpace);
    DecimalHasNoSpace(n);
    assert Remove(before + d + after, IsSpace) == d;
    ParseDecimal(n);
  }

  /** create_treemap.py reads a rendered number back, whatever whitespace surrounds it. */
  lemma CreateReadsDecimal(before: string, n: nat, after: string)
    requires AllSpace(before) && AllSpace(after)
    ensures CreateParseValue(Text(before + Decimal(n) + after)) == Some(n)
  {
    var d := Decimal(n);
    assert !IsSpace(d[0]) && !IsSpace(d[|d| - 1]);
    StripPadded(before, d, after);
    DecimalHasNoSpace(n);
    ParseDecimal(n);
  }

  /** An integer literal contains no whitespace. */
  lemma LiteralHasNoSpace(r: string)
    requires IsIntegerLiteral(r)
    ensures forall x :: x in r ==> !IsSpace(x)
  {
    forall x | x in r
      ensures !IsSpace(x)
    {
      var k :| 0 <= k < |r| && r[k] == x;
      assert IsDigit(x) || (k == 0 && (x == '+' || x == '-'));
    }
  }

  /** If removing the ' ' characters leaves an integer literal, ' ' was the only whitespace. */
  lemma OnlyBlanksAreSpaces(core: string)
    requires IsIntegerLiteral(Remove(core, IsBlank))
    ensures forall k :: 0 <= k < |core| ==> (IsSpace(core[k]) <==> IsBlank(core[k]))
  {
    forall k | 0 <= k < |core|
      ensures IsSpace(core[k]) <==> IsBlank(core[k])
    {
      BlankIffSpaceAt(core, k);
    }
  }

  lemma BlankIffSpaceAt(core: string, k: nat)
    requires IsIntegerLiteral(Remove(core, IsBlank)) && k < |core|
    ensures IsSpace(core[k]) <==> IsBlank(core[k])
  {
    if !IsBlank(core[k]) {
      KeptCharSurvives(core, k);
      LiteralHasNoSpace(Remove(core, IsBlank));
    }
  }

  /** A character that is not a blank survives the removal of blanks. */
  lemma KeptCharSurvives(core: string, k: nat)
    requires k < |core| && !IsBlank(core[k])
    ensures core[k] in Remove(core, IsBlank)
  {
    var x := core[k];
    assert x in multiset(core);
    RemoveKeepsOthers(core, IsBlank, x);
    assert x in multiset(Remove(core, IsBlank));
  }

  /** Removing all whitespace ignores the whitespace that stripping would remove. */
  lemma RemoveSpacesOfStripped(s: string, i: nat, core: string)
    requires StrippedAt(s, i, core)
    ensures Remove(s, IsSpace) == Remove(core, IsSpace)
  {
    assert s == s[..i] + core + s[i + |core|..];
    RemoveConcat(s[..i] + core, s[i + |core|..], IsSpace);
    RemoveConcat(s[..i], core, IsSpace);
    RemoveAllDropped(s[..i], IsSpace);
    RemoveAllDropped(s[i + |core|..], IsSpace);
  }

  /** Every value create_treemap.py accepts, generate_treemap.py accepts with the same number. */
  lemma CreateValueAcceptedByGenerate(c: RawCell)
    requires CreateParseValue(c).Some?
    ensures GenerateParseValue(c) == CreateParseValue(c)
  {
    var s := AsStr(c);
    var core := Strip(s);
    OnlyBlanksAreSpaces(core);
    RemoveAgrees(core, IsSpace, IsBlank);
    StripMeaning(s);
    var i :| StrippedAt(s, i, core);
    RemoveSpacesOfStripped(s, i, core);
  }

  lemma RemoveTab()
    ensures Remove("1\t000", IsSpace) == "1000"
  {
    var a, b, c := "1", "\t", "000";
    assert !IsSpace('1') && !IsSpace('0') && IsSpace('\t');
    assert Remove(a, IsSpace) == a;
    assert Remove(c, IsSpace) == c;
    RemoveAllDropped(b, IsSpace);
    RemoveConcat(a + b, c, IsSpace);
    RemoveConcat(a, b, IsSpace);
    assert a + b + c == "1\t000";
  }

  lemma ThousandValue()
    ensures ParseInt("1000") == Some(1000)
  {
    assert AllDigits("1000");
    assert "1000"[..3] == "100" && "100"[..2] == "10" && "10"[..1] == "1" && "1"[..0] == "";
    assert DigitsValue("1") == 1;
    assert DigitsValue("10") == 10;
    assert DigitsValue("100") == 100;
    assert DigitsValue("1000") == 1000;
  }

  lemma StripTab()
    ensures Strip("1\t000") == "1\t000"
  {
    var s := "1\t000";
    assert !IsSpace(s[0]) && !IsSpace(s[|s| - 1]);
    StripOfStripped(s);
  }

  lemma TabNotParsed()
    ensures ParseInt(Remove("1\t000", IsBlank)) == None
  {
    var s := "1\t000";
    assert forall k :: 0 <= k < |s| ==> !IsBlank(s[k]);
    assert Remove(s, IsBlank) == s;
    assert !IsIntegerLiteral(s) by {
      assert !IsDigit(s[1]);
      assert s[0] != '+' && s[0] != '-';
    }
  }

  /** The converse fails: a tab used as thousands separator is removed only by generate. */
  lemma TabSeparatorOnlyGenerate()
    ensures GenerateParseValue(Text("1\t000")) == Some(1000)
    ensures CreateParseValue(Text("1\t000")) == None
  {
    assert AsStr(Text("1\t000")) == "1\t000";
    RemoveTab();
    ThousandValue();
    StripTab();
    TabNotParsed();
  }

  /** The positions of the rows whose parsed value is a positive integer, in increasing order:
      the rows that survive generate_treemap.py's positive-value filter. */
  function KeptIndices(vals: seq<Option<int>>): (r: seq<nat>)
    ensures forall k :: 0 <= k < |r| ==> r[k] < |vals|
    ensures forall a, b :: 0 <= a < b < |r| ==> r[a] < r[b]
    ensures forall i :: 0 <= i < |vals| ==> (i in r <==> vals[i].Some? && vals[i].value > 0)
  {
    if vals == [] then []
    else
      var n := |vals| - 1;
      var init := KeptIndices(vals[..n]);
      assert forall i :: 0 <= i < n ==> vals[..n][i] == vals[i];
      if vals[n].Some? && vals[n].value > 0 then init + [n] else init
  }

  /** The sum of the positive parsed values: what survives the value filter. */
  function PositiveTotal(vals: seq<Option<int>>): nat {
    if vals == [] then 0
    else
      var last := vals[|vals| - 1];
      PositiveTotal(vals[..|vals| - 1]) + (if last.Some? && last.value > 0 then last.value else 0)
  }

  /** The cleaned records, in row order: for each kept position, its level cells and its value
      (the surviving rows keep their level cells and take the parsed value). */
  function KeepPositive(keys: seq<Key>, vals: seq<Option<int>>): (rs: seq<Record>)
    requires |keys| == |vals|
    ensures |rs| <= |vals|
    ensures forall k :: 0 <= k < |rs| ==> rs[k].value >= 1
    ensures Sum(rs) == PositiveTotal(vals)
  {
    if vals == [] then []
    else
      var n := |vals| - 1;
      var init := KeepPositive(keys[..n], vals[..n]);
      if vals[n].Some? && vals[n].value > 0 then
        var rs := init + [Record(keys[n], vals[n].value as nat)];
        assert rs[..|rs| - 1] == init;
        rs
      else
        init
  }

  /** Position `j` survives the value filter. */
  predicate Kept(vals: seq<Option<int>>, j: int) {
    0 <= j < |vals| && vals[j].Some? && vals[j].value > 0
  }

  /** `key` is the level tuple of some kept position. */
  predicate KeyOfKept(key: Key, keys: seq<Key>, vals: seq<Option<int>>)
    requires |keys| == |vals|
  {
    exists j :: 0 <= j < |vals| && Kept(vals, j) && key == keys[j]
  }

  /** Some record carries `key`. */
  predicate RecordWith(rs: seq<Record>, key: Key) {
    exists k :: 0 <= k < |rs| && rs[k].key == key
  }

  /** Each record carries the levels of some kept position. */
  predicate FromKept(rs: seq<Record>, keys: seq<Key>, vals: seq<Option<int>>)
    requires |keys| == |vals|
  {
    forall k :: 0 <= k < |rs| ==> KeyOfKept(rs[k].key, keys, vals)
  }

  /** The levels of each kept position are carried by some record. */
  predicate CoversKept(rs: seq<Record>, keys: seq<Key>, vals: seq<Option<int>>)
    requires |keys| == |vals|
  {
    forall j :: 0 <= j < |vals| && Kept(vals, j) ==> RecordWith(rs, keys[j])
  }

  /** The records of all positions extend the records of all but the last by at most that one. */
  predicate StepsFrom(keys: seq<Key>, vals: seq<Option<int>>, init: seq<Record>, rs: seq<Record>)
    requires |keys| == |vals| > 0
  {
    var n := |vals| - 1;
    && (Kept(vals, n) ==> rs == init + [Record(keys[n], vals[n].value as nat)])
    && (!Kept(vals, n) ==> rs == init)
  }

  lemma KeepPositiveSteps(keys: seq<Key>, vals: seq<Option<int>>)
    requires |keys| == |vals| > 0
    ensures StepsFrom(keys, vals, KeepPositive(keys[..|vals| - 1], vals[..|vals| - 1]), KeepPositive(keys, vals))
  {
  }

  lemma FromKeptStep(keys: seq<Key>, vals: seq<Option<int>>, init: seq<Record>, rs: seq<Record>)
    requires |keys| == |vals| > 0
    requires FromKept(init, keys[..|vals| - 1], vals[..|vals| - 1])
    requires StepsFrom(keys, vals, init, rs)
    ensures FromKept(rs, keys, vals)
  {
    var n := |vals| - 1;
    var ks, vs := keys[..n], vals[..n];
    forall k | 0 <= k < |rs|
      ensures KeyOfKept(rs[k].key, keys, vals)
    {
      if k < |init| {
        assert rs[k] == init[k];
        assert KeyOfKept(init[k].key, ks, vs);
        var j :| 0 <= j < |vs| && Kept(vs, j) && init[k].key == ks[j];
        assert Kept(vals, j) && rs[k].key == keys[j];
      } else {
        assert Kept(vals, n) && rs[k].key == keys[n];
      }
    }
  }

  lemma CoversKeptStep(keys: seq<Key>, vals: seq<Option<int>>, init: seq<Record>, rs: seq<Record>)
    requires |keys| == |vals| > 0
    requires CoversKept(init, keys[..|vals| - 1], vals[..|vals| - 1])
    requires StepsFrom(keys, vals, init, rs)
    ensures CoversKept(rs, keys, vals)
  {
    var n := |vals| - 1;
    var ks, vs := keys[..n], vals[..n];
    forall j | 0 <= j < |vals| && Kept(vals, j)
      ensures RecordWith(rs, keys[j])
    {
      if j < n {
        assert Kept(vs, j) && RecordWith(init, ks[j]);
        var k :| 0 <= k < |init| && init[k].key == ks[j];
        assert rs[k] == init[k];
      } else {
        assert rs[|rs| - 1].key == keys[j];
      }
    }
  }

  /** Each record comes from a kept position. */
  lemma {:induction false} KeptRecordsFrom(keys: seq<Key>, vals: seq<Option<int>>)
    requires |keys| == |vals|
    ensures FromKept(KeepPositive(keys, vals), keys, vals)
  {
    if vals != [] {
      var n := |vals| - 1;
      KeptRecordsFrom(keys[..n], vals[..n]);
      KeepPositiveSteps(keys, vals);
      FromKeptStep(keys, vals, KeepPositive(keys[..n], vals[..n]), KeepPositive(keys, vals));
    }
  }

  /** Each kept position gives a record. */
  lemma {:induction false} KeptRecordsCover(keys: seq<Key>, vals: seq<Option<int>>)
    requires |keys| == |vals|
    ensures CoversKept(KeepPositive(keys, vals), keys, vals)
  {
    if vals != [] {
      var n := |vals| - 1;
      KeptRecordsCover(keys[..n], vals[..n]);
      KeepPositiveSteps(keys, vals);
      CoversKeptStep(keys, vals, KeepPositive(keys[..n], vals[..n]), KeepPositive(keys, vals));
    }
  }

  /** Record `k` carries the levels and the value of position `idx[k]`. */
  predicate Selects(rs: seq<Record>, keys: seq<Key>, vals: seq<Option<int>>, idx: seq<nat>)
    requires |keys| == |vals|
  {
    && |rs| == |idx|
    && forall k :: 0 <= k < |rs| ==>
         idx[k] < |vals| && rs[k].key == keys[idx[k]] && vals[idx[k]] == Some(rs[k].value as int)
  }

  lemma KeptIndicesStep(vals: seq<Option<int>>)
    requires |vals| > 0
    ensures KeptIndices(vals) ==
              KeptIndices(vals[..|vals| - 1]) + (if Kept(vals, |vals| - 1) then [|vals| - 1] else [])
  {
  }

  lemma SelectsStep(keys: seq<Key>, vals: seq<Option<int>>, init: seq<Record>, rs: seq<Record>,
                    before: seq<nat>, idx: seq<nat>)
    requires |keys| == |vals| > 0
    requires Selects(init, keys[..|vals| - 1], vals[..|vals| - 1], before)
    requires StepsFrom(keys, vals, init, rs)
    requires idx == before + (if Kept(vals, |vals| - 1) then [|vals| - 1] else [])
    ensures Selects(rs, keys, vals, idx)
  {
    var n := |vals| - 1;
    var ks, vs := keys[..n], vals[..n];
    forall k | 0 <= k < |rs|
      ensures idx[k] < |vals| && rs[k].key == keys[idx[k]] && vals[idx[k]] == Some(rs[k].value as int)
    {
      if k < |init| {
        assert rs[k] == init[k] && idx[k] == before[k];
        assert ks[before[k]] == keys[before[k]] && vs[before[k]] == vals[before[k]];
      } else {
        assert idx[k] == n;
      }
    }
  }

  /** The `k`-th record is the `k`-th kept position: its levels and its value. */
  lemma {:induction false} KeepPositiveSelects(keys: seq<Key>, vals: seq<Option<int>>)
    requires |keys| == |vals|
    ensures |KeepPositive(keys, vals)| == |KeptIndices(vals)|
    ensures forall k :: 0 <= k < |KeepPositive(keys, vals)| ==>
              && KeepPositive(keys, vals)[k].key == keys[KeptIndices(vals)[k]]
              && vals[KeptIndices(vals)[k]] == Some(KeepPositive(keys, vals)[k].value as int)
  {
    SelectsKept(keys, vals);
  }

  lemma {:induction false} SelectsKept(keys: seq<Key>, vals: seq<Option<int>>)
    requires |keys| == |vals|
    ensures Selects(KeepPositive(keys, vals), keys, vals, KeptIndices(vals))
  {
    if vals != [] {
      var n := |vals| - 1;
      SelectsKept(keys[..n], vals[..n]);
      KeepPositiveSteps(keys, vals);
      KeptIndicesStep(vals);
      SelectsStep(keys, vals, KeepPositive(keys[..n], vals[..n]), KeepPositive(keys, vals),
                  KeptIndices(vals[..n]), KeptIndices(vals));
    }
  }

  /** A cleaned level tuple of the given width. */
  predicate Shaped(k: Key, width: nat) {
    |k| == width && NoEmptyText(k)
  }

  /** Records keep the shape every key has: their width and no `''` level. */
  lemma KeepPositiveKeys(keys: seq<Key>, vals: seq<Option<int>>, width: nat)
    requires |keys| == |vals|
    requires forall j :: 0 <= j < |keys| ==> Shaped(keys[j], width)
    ensures forall k :: 0 <= k < |KeepPositive(keys, vals)| ==> Shaped(KeepPositive(keys, vals)[k].key, width)
    ensures Cleaned(KeepPositive(keys, vals))
  {
    var rs := KeepPositive(keys, vals);
    KeptRecordsFrom(keys, vals);
    forall k | 0 <= k < |rs|
      ensures Shaped(rs[k].key, width)
    {
      assert KeyOfKept(rs[k].key, keys, vals);
    }
  }
}
