/** Go's `rand.Shuffle(n, swap)`: a Fisher-Yates shuffle that walks the slice
    from its last index down to 1 and swaps position i with a position drawn
    uniformly from [0, i]. The random source is not modelled: its draws are a
    parameter, `d[i]` being the position drawn at step i. */
module Shuffling {

  /** `d` holds one admissible draw per position of an n-element slice. */
  predicate ValidDraws(d: seq<nat>, n: nat) {
    |d| == n && forall i :: 0 <= i < n ==> d[i] <= i
  }

  /** The slice after the swap closure `s[i], s[j] = s[j], s[i]`. */
  function Swap<T>(s: seq<T>, i: nat, j: nat): (r: seq<T>)
    requires i < |s| && j < |s|
    ensures |r| == |s|
  {
    s[i := s[j]][j := s[i]]
  }

  /** The steps i, i-1, ..., 1 of the shuffle, applied to s. */
  function ShuffleDown<T>(s: seq<T>, d: seq<nat>, i: nat): (r: seq<T>)
    requires ValidDraws(d, |s|) && i < |s|
    ensures |r| == |s|
    decreases i
  {
    if i == 0 then s else ShuffleDown(Swap(s, i, d[i]), d, i - 1)
  }

  /** The order `rand.Shuffle` leaves the slice in, for the draws d. */
  function Shuffled<T>(s: seq<T>, d: seq<nat>): seq<T>
    requires ValidDraws(d, |s|)
  {
    if |s| == 0 then s else ShuffleDown(s, d, |s| - 1)
  }

  /** Where the element that ends up at position k came from: the positions the
      steps i, ..., 1 exchange, traced back from k. It depends on the draws only,
      never on the contents. */
  function SourceDown(d: seq<nat>, n: nat, i: nat, k: nat): (src: nat)
    requires ValidDraws(d, n) && i < n && k < n
    ensures src < n
    decreases i
  {
    if i == 0 then k
    else
      var m := SourceDown(d, n, i - 1, k);
      if m == i then d[i] else if m == d[i] then i else m
  }

  /** Steps i, ..., 1 only permute the slice. */
  lemma {:induction false} ShuffleDownPermutes<T>(s: seq<T>, d: seq<nat>, i: nat)
    requires ValidDraws(d, |s|) && i < |s|
    ensures multiset(ShuffleDown(s, d, i)) == multiset(s)
    decreases i
  {
    if i > 0 {
      var j := d[i];
      ShuffleDownPermutes(Swap(s, i, j), d, i - 1);
    }
  }

  /** The shuffle only permutes the slice: same length, same multiset. */
  lemma ShuffledIsPermutation<T>(s: seq<T>, d: seq<nat>)
    requires ValidDraws(d, |s|)
    ensures |Shuffled(s, d)| == |s| && multiset(Shuffled(s, d)) == multiset(s)
    ensures forall k :: 0 <= k < |s| ==> Shuffled(s, d)[k] in s
  {
    if |s| > 0 { ShuffleDownPermutes(s, d, |s| - 1); }
    forall k | 0 <= k < |s| ensures Shuffled(s, d)[k] in s {
      assert Shuffled(s, d)[k] in multiset(Shuffled(s, d));
    }
  }

  /** Steps i, ..., 1 move elements by positions alone: the element at k
      afterwards is the one that stood at `SourceDown(d, |s|, i, k)`. */
  lemma {:induction false} ShuffleDownAt<T>(s: seq<T>, d: seq<nat>, i: nat, k: nat)
    requires ValidDraws(d, |s|) && i < |s| && k < |s|
    ensures ShuffleDown(s, d, i)[k] == s[SourceDown(d, |s|, i, k)]
    decreases i
  {
    if i > 0 {
      ShuffleDownAt(Swap(s, i, d[i]), d, i - 1, k);
    }
  }

  /** `Shuffled` is a rearrangement by positions: two slices of one length
      shuffled with the same draws are rearranged in the same way. */
  lemma ShuffledAt<T>(s: seq<T>, d: seq<nat>, k: nat)
    requires ValidDraws(d, |s|) && k < |s|
    ensures Shuffled(s, d)[k] == s[SourceDown(d, |s|, |s| - 1, k)]
  {
    ShuffleDownAt(s, d, |s| - 1, k);
  }

  /** The draws that leave every position in place except that step k swaps
      positions k and 0. */
  function LeadDraws(n: nat, k: nat): (d: seq<nat>)
    ensures ValidDraws(d, n)
  {
    seq(n, (i: int) requires 0 <= i => if i == k then 0 else i as nat)
  }

  /** Under `LeadDraws(n, k)` steps i, ..., 1 exchange positions k and 0 if k is
      among them and change nothing else. */
  lemma {:induction false} ShuffleDownLead<T>(s: seq<T>, k: nat, i: nat)
    requires k < |s| && i < |s|
    ensures ShuffleDown(s, LeadDraws(|s|, k), i) == if 1 <= k <= i then Swap(s, k, 0) else s
    decreases i
  {
    var d := LeadDraws(|s|, k);
    if i > 0 {
      if i == k {
        ShuffleDownLead(Swap(s, k, 0), k, i - 1);
      } else {
        assert Swap(s, i, d[i]) == s;
        ShuffleDownLead(s, k, i - 1);
      }
    }
  }

  /** Every element can be brought to the front: with `LeadDraws(|s|, k)` the
      shuffle puts s[k] first and changes nothing but positions 0 and k. */
  lemma ShuffledLead<T>(s: seq<T>, k: nat)
    requires k < |s|
    ensures Shuffled(s, LeadDraws(|s|, k)) == Swap(s, k, 0)
  {
    ShuffleDownLead(s, k, |s| - 1);
    if k == 0 { assert Swap(s, 0, 0) == s; }
  }

  /** `rand.Shuffle` with the slice's in-place swap closure. */
  method Shuffle<T>(a: array<T>, d: seq<nat>)
    requires ValidDraws(d, a.Length)
    modifies a
    ensures a[..] == Shuffled(old(a[..]), d)
    ensures multiset(a[..]) == multiset(old(a[..]))
  {
    if a.Length == 0 { return; }
    var i := a.Length - 1;
    while i > 0
      invariant 0 <= i < a.Length
      invariant ShuffleDown(a[..], d, i) == Shuffled(old(a[..]), d)
      decreases i
    {
      var j := d[i];
      ghost var before := a[..];
      a[i], a[j] := a[j], a[i];
      assert a[..] == Swap(before, i, j);
      i := i - 1;
    }
    ShuffledIsPermutation(old(a[..]), d);
  }
}
