/** Generic facts about sequences: order-preserving subsequences and filtering. */
module Seqs {

  /** `xs` can be obtained from `ys` by deleting elements, keeping the order of the rest. */
  predicate IsSubsequence<T(==)>(xs: seq<T>, ys: seq<T>)
    decreases |xs| + |ys|
  {
    if xs == [] then true
    else if ys == [] then false
    else if xs[0] == ys[0] then IsSubsequence(xs[1..], ys[1..])
    else IsSubsequence(xs, ys[1..])
  }

  /** Deletes every element satisfying `drop`, keeping the others in order. */
  function Remove<T(==)>(s: seq<T>, drop: T -> bool): (r: seq<T>)
    ensures forall k :: 0 <= k < |r| ==> !drop(r[k])
    ensures IsSubsequence(r, s)
    ensures (forall k :: 0 <= k < |s| ==> !drop(s[k])) ==> r == s
    decreases |s|
  {
    if s == [] then []
    else
      var rest := Remove(s[1..], drop);
      if drop(s[0]) then
        assert rest == [] || rest[0] != s[0];
        rest
      else
        [s[0]] + rest
  }

  /** Removal keeps every element it does not drop, as often as it occurs. */
  lemma {:induction false} RemoveKeepsOthers<T>(s: seq<T>, drop: T -> bool, c: T)
    requires !drop(c)
    ensures multiset(Remove(s, drop))[c] == multiset(s)[c]
  {
    if s != [] {
      assert s == [s[0]] + s[1..];
      RemoveKeepsOthers(s[1..], drop, c);
    }
  }

  lemma {:induction false} RemoveConcat<T>(a: seq<T>, b: seq<T>, drop: T -> bool)
    ensures Remove(a + b, drop) == Remove(a, drop) + Remove(b, drop)
  {
    if a == [] {
      assert a + b == b;
    } else {
      assert (a + b)[1..] == a[1..] + b;
      RemoveConcat(a[1..], b, drop);
    }
  }

  lemma {:induction false} RemoveAllDropped<T>(s: seq<T>, drop: T -> bool)
    requires forall k :: 0 <= k < |s| ==> drop(s[k])
    ensures Remove(s, drop) == []
  {
    if s != [] {
      RemoveAllDropped(s[1..], drop);
    }
  }

  lemma {:induction false} RemoveAgrees<T>(s: seq<T>, d1: T -> bool, d2: T -> bool)
    requires forall k :: 0 <= k < |s| ==> (d1(s[k]) <==> d2(s[k]))
    ensures Remove(s, d1) == Remove(s, d2)
  {
    if s != [] {
      RemoveAgrees(s[1..], d1, d2);
    }
  }
}
