/** A node's share of the grand total, before float formatting: both scripts guard against a
    zero total and otherwise divide the node's value by the total. */
module Percent {
  import opened Wrappers

  /** The guarded "0.00%", or `part / whole * 100`. */
  datatype Percentage = ZeroPercent | Ratio(part: nat, whole: nat)

  /** A share that can be computed: a ratio never divides by zero. */
  predicate Defined(p: Percentage) {
    p.ZeroPercent? || p.whole > 0
  }

  /** A share of at most 100%. */
  predicate AtMostWhole(p: Percentage) {
    p.ZeroPercent? || p.part <= p.whole
  }

  /** generate_treemap.py's `format_percentage`: a missing or zero total gives "0.00%". */
  function FormatPercentage(value: nat, total: Option<nat>): (p: Percentage)
    ensures Defined(p)
    ensures p.ZeroPercent? <==> total.None? || total.value == 0
    ensures p.Ratio? ==> p.part == value && total == Some(p.whole)
  {
    if total.None? || total.value == 0 then ZeroPercent else Ratio(value, total.value)
  }

  /** create_treemap.py's share: zero when the total is zero, otherwise the value over the total. */
  function CreatePercentage(value: nat, total: nat): (p: Percentage)
    ensures Defined(p)
    ensures p.ZeroPercent? <==> total == 0
    ensures p.Ratio? ==> p.part == value && p.whole == total
  {
    if total == 0 then ZeroPercent else Ratio(value, total)
  }

  /** With a known total the two guards agree. */
  lemma GuardsAgree(value: nat, total: nat)
    ensures FormatPercentage(value, Some(total)) == CreatePercentage(value, total)
  {
  }
}
