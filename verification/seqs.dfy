/** First-match lookup and filtering over sequences: the `Array.prototype.find` and
    `Array.prototype.filter` the leaderboard code relies on. */
module Seqs {
  import opened Wrappers

  /** Index of the first element satisfying `p`, if any. */
  function FirstIndex<T>(s: seq<T>, p: T -> bool): (r: Optional<nat>)
    ensures r.Undefined? <==> forall i :: 0 <= i < |s| ==> !p(s[i])
    ensures r.Defined? ==> r.value < |s| && p(s[r.value])
    ensures r.Defined? ==> forall j :: 0 <= j < r.value ==> !p(s[j])
  {
    if |s| == 0 then Undefined
    else if p(s[0]) then Defined(0)
    else match FirstIndex(s[1..], p)
      case Undefined => Undefined
      case Defined(i) => Defined(i + 1)
  }

  /** `Array.prototype.find`: the first element satisfying `p`, or `undefined`. */
  function Find<T>(s: seq<T>, p: T -> bool): (r: Optional<T>)
    ensures r.Undefined? <==> forall i :: 0 <= i < |s| ==> !p(s[i])
    ensures r.Defined? ==> exists i :: 0 <= i < |s| && s[i] == r.value && p(s[i]) && forall j :: 0 <= j < i ==> !p(s[j])
  {
    match FirstIndex(s, p)
    case Undefined => Undefined
    case Defined(i) => Defined(s[i])
  }

  /** `Array.prototype.filter`: the elements satisfying `p`, in their original order. */
  function Filter<T>(s: seq<T>, p: T -> bool): (r: seq<T>)
    ensures |r| <= |s|
    ensures forall i :: 0 <= i < |r| ==> p(r[i]) && r[i] in s
    ensures forall i :: 0 <= i < |s| && p(s[i]) ==> s[i] in r
  {
    if |s| == 0 then []
    else if p(s[0]) then [s[0]] + Filter(s[1..], p)
    else Filter(s[1..], p)
  }

  /** Filtering distributes over concatenation. */
  lemma {:induction false} FilterConcat<T>(a: seq<T>, b: seq<T>, p: T -> bool)
    ensures Filter(a + b, p) == Filter(a, p) + Filter(b, p)
  {
    if |a| == 0 {
      assert a + b == b;
    } else {
      assert (a + b)[1..] == a[1..] + b;
      FilterConcat(a[1..], b, p);
    }
  }

  /** Filtering keeps everything when every element passes. */
  lemma {:induction false} FilterAll<T>(s: seq<T>, p: T -> bool)
    requires forall i :: 0 <= i < |s| ==> p(s[i])
    ensures Filter(s, p) == s
  {
    if |s| > 0 {
      FilterAll(s[1..], p);
    }
  }

  /** Filtering removes exactly the one element that fails `p`, when only one does. */
  lemma {:induction false} FilterDropsOne<T>(s: seq<T>, p: T -> bool, k: nat)
    requires k < |s| && !p(s[k])
    requires forall i :: 0 <= i < |s| && i != k ==> p(s[i])
    ensures Filter(s, p) == s[..k] + s[k + 1..]
  {
    var before, after := s[..k], s[k + 1..];
    SplitAt(s, k);
    FilterConcat(before + [s[k]], after, p);
    FilterConcat(before, [s[k]], p);
    assert Filter([s[k]], p) == [] by {
      assert [s[k]][1..] == [];
    }
    forall i | 0 <= i < |before| ensures p(before[i]) {
      assert before[i] == s[i];
    }
    FilterAll(before, p);
    forall i | 0 <= i < |after| ensures p(after[i]) {
      assert after[i] == s[k + 1 + i];
    }
    FilterAll(after, p);
    assert before + [] == before;
  }

  /** Concatenation regrouped, stated once so proofs need not rediscover it. */
  lemma Assoc<T>(a: seq<T>, b: seq<T>, c: seq<T>)
    ensures a + b + c == a + (b + c)
  {
  }

  lemma Assoc4<T>(a: seq<T>, b: seq<T>, c: seq<T>, d: seq<T>)
    ensures a + b + c + d == a + (b + c + d)
  {
  }

  /** A sequence is the part before position `k`, the element at `k`, and the part after. */
  lemma SplitAt<T>(s: seq<T>, k: nat)
    requires k < |s|
    ensures s == s[..k] + [s[k]] + s[k + 1..]
  {
  }
}
