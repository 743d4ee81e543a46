/** The reduction both tie-break policies run after shuffling their candidates:
    scan left to right holding a running minimum that starts at math.MaxInt64,
    and replace the best candidate only when an eligible one is strictly below
    it. `metric` is the value the candidate's getter returned; `eligible` is the
    policy's extra condition (the free-space reserve for lfs, none for lno). */
module Reduction {
  import opened Outcomes
  import opened Upstreams
  import opened Shuffling

  /** The loop's variables: the running minimum and the position of the best candidate. */
  datatype ScanState = ScanState(min: int64, best: Option<nat>)

  /** The loop's variables after it has visited all of s. */
  function ScanOf<T>(s: seq<T>, metric: T -> int64, eligible: T -> bool): (st: ScanState)
    ensures st.best.None? ==> st.min == MaxInt64
    ensures st.best.Some? ==> st.best.value < |s| && st.min == metric(s[st.best.value])
    decreases |s|
  {
    if |s| == 0 then ScanState(MaxInt64, None)
    else
      var st := ScanOf(s[..|s| - 1], metric, eligible);
      var x := s[|s| - 1];
      if metric(x) < st.min && eligible(x) then ScanState(metric(x), Some(|s| - 1)) else st
  }

  /** The candidate the scan settles on, or nil. */
  function Winner<T>(s: seq<T>, metric: T -> int64, eligible: T -> bool): Option<T> {
    var st := ScanOf(s, metric, eligible);
    if st.best.Some? then Some(s[st.best.value]) else None
  }

  /** A candidate the scan can ever record: eligible, and below the initial minimum. */
  ghost predicate Candidate<T>(x: T, metric: T -> int64, eligible: T -> bool) {
    eligible(x) && metric(x) < MaxInt64
  }

  ghost predicate HasCandidate<T>(s: seq<T>, metric: T -> int64, eligible: T -> bool) {
    exists k :: 0 <= k < |s| && Candidate(s[k], metric, eligible)
  }

  /** x is one of the candidates in s and no eligible one has a smaller metric. */
  ghost predicate IsLeast<T>(s: seq<T>, x: T, metric: T -> int64, eligible: T -> bool) {
    && x in s
    && Candidate(x, metric, eligible)
    && forall k :: 0 <= k < |s| && eligible(s[k]) ==> metric(x) <= metric(s[k])
  }

  /** s[w] is least, and every eligible candidate before it is strictly larger:
      among equal least candidates it is the first. */
  ghost predicate IsFirstLeast<T>(s: seq<T>, w: nat, metric: T -> int64, eligible: T -> bool) {
    && w < |s|
    && IsLeast(s, s[w], metric, eligible)
    && forall k :: 0 <= k < w && eligible(s[k]) ==> metric(s[w]) < metric(s[k])
  }

  /** The scan records a best candidate exactly when s has a candidate, and the
      one it records is the first least one. */
  lemma {:induction false} ScanFindsFirstLeast<T>(s: seq<T>, metric: T -> int64, eligible: T -> bool)
    ensures ScanOf(s, metric, eligible).best.None? <==> !HasCandidate(s, metric, eligible)
    ensures ScanOf(s, metric, eligible).best.Some? ==>
              IsFirstLeast(s, ScanOf(s, metric, eligible).best.value, metric, eligible)
    decreases |s|
  {
    if |s| > 0 {
      var n := |s| - 1;
      var p := s[..n];
      var x := s[n];
      assert forall k :: 0 <= k < n ==> p[k] == s[k];
      ScanFindsFirstLeast(p, metric, eligible);
      var st := ScanOf(p, metric, eligible);
      if metric(x) < st.min && eligible(x) {
        assert IsLeast(s, x, metric, eligible) by {
          assert s[n] == x;
          forall k | 0 <= k < |s| && eligible(s[k]) ensures metric(x) <= metric(s[k]) {
            if k < n && st.best.Some? {
              assert metric(p[st.best.value]) <= metric(p[k]);
            } else if k < n {
              assert !Candidate(p[k], metric, eligible);
            }
          }
        }
        forall k | 0 <= k < n && eligible(s[k]) ensures metric(x) < metric(s[k]) {
          if st.best.Some? {
            assert metric(p[st.best.value]) <= metric(p[k]);
          } else {
            assert !Candidate(p[k], metric, eligible);
          }
        }
      } else if st.best.Some? {
        var w := st.best.value;
        assert s[w] == p[w];
        assert IsLeast(s, s[w], metric, eligible);
      } else {
        assert !Candidate(x, metric, eligible);
        assert !HasCandidate(s, metric, eligible) by {
          forall k | 0 <= k < |s| ensures !Candidate(s[k], metric, eligible) {
            if k < n { assert !Candidate(p[k], metric, eligible); }
          }
        }
      }
    }
  }

  /** Both directions: the scan records position w exactly when s[w] is the first least candidate. */
  lemma ScanPicksExactlyFirstLeast<T>(s: seq<T>, w: nat, metric: T -> int64, eligible: T -> bool)
    ensures ScanOf(s, metric, eligible).best == Some(w) <==> IsFirstLeast(s, w, metric, eligible)
  {
    ScanFindsFirstLeast(s, metric, eligible);
    var st := ScanOf(s, metric, eligible);
    if IsFirstLeast(s, w, metric, eligible) {
      assert HasCandidate(s, metric, eligible) by {
        assert Candidate(s[w], metric, eligible);
      }
      var v := st.best.value;
      assert IsFirstLeast(s, v, metric, eligible);
    }
  }

  /** The scan looks at nothing but the metric and eligibility of each position:
      two sequences that agree on those pick the same position. */
  lemma {:induction false} ScanSeesOnlyReadings<T, U>(s: seq<T>, t: seq<U>,
      metricS: T -> int64, eligibleS: T -> bool, metricT: U -> int64, eligibleT: U -> bool)
    requires |s| == |t|
    requires forall k :: 0 <= k < |s| ==> metricS(s[k]) == metricT(t[k]) && eligibleS(s[k]) == eligibleT(t[k])
    ensures ScanOf(s, metricS, eligibleS) == ScanOf(t, metricT, eligibleT)
    decreases |s|
  {
    if |s| > 0 {
      var n := |s| - 1;
      assert forall k :: 0 <= k < n ==> s[..n][k] == s[k] && t[..n][k] == t[k];
      ScanSeesOnlyReadings(s[..n], t[..n], metricS, eligibleS, metricT, eligibleT);
    }
  }

  /** What the shuffle-then-scan guarantees whatever the draws: nil exactly when
      the input has no candidate, and otherwise a least candidate of the input. */
  lemma WinnerOfShuffled<T>(s: seq<T>, d: seq<nat>, metric: T -> int64, eligible: T -> bool)
    requires ValidDraws(d, |s|)
    ensures Winner(Shuffled(s, d), metric, eligible).None? <==> !HasCandidate(s, metric, eligible)
    ensures Winner(Shuffled(s, d), metric, eligible).Some? ==>
              IsLeast(s, Winner(Shuffled(s, d), metric, eligible).value, metric, eligible)
  {
    var t := Shuffled(s, d);
    ShuffledIsPermutation(s, d);
    ScanFindsFirstLeast(t, metric, eligible);
    assert forall k :: 0 <= k < |s| ==> s[k] in t by {
      forall k | 0 <= k < |s| ensures s[k] in t {
        assert s[k] in multiset(s);
      }
    }
    if HasCandidate(s, metric, eligible) {
      var k :| 0 <= k < |s| && Candidate(s[k], metric, eligible);
      var j :| 0 <= j < |t| && t[j] == s[k];
      assert Candidate(t[j], metric, eligible);
    }
    if HasCandidate(t, metric, eligible) {
      var j :| 0 <= j < |t| && Candidate(t[j], metric, eligible);
      var k :| 0 <= k < |s| && s[k] == t[j];
      assert Candidate(s[k], metric, eligible);
    }
    var r := Winner(t, metric, eligible);
    if r.Some? {
      var w := ScanOf(t, metric, eligible).best.value;
      assert r.value == t[w] && t[w] in s;
      forall k | 0 <= k < |s| && eligible(s[k]) ensures metric(r.value) <= metric(s[k]) {
        var j :| 0 <= j < |t| && t[j] == s[k];
      }
    }
  }

  /** No least candidate is shut out by the tie-break: for each one there are
      draws under which the shuffle puts it first and the scan returns it. */
  lemma EveryLeastCanWin<T>(s: seq<T>, k: nat, metric: T -> int64, eligible: T -> bool)
    requires k < |s| && IsLeast(s, s[k], metric, eligible)
    ensures Winner(Shuffled(s, LeadDraws(|s|, k)), metric, eligible) == Some(s[k])
  {
    var t := Shuffled(s, LeadDraws(|s|, k));
    ShuffledLead(s, k);
    ShuffledIsPermutation(s, LeadDraws(|s|, k));
    assert t[0] == s[k];
    forall j | 0 <= j < |t| && eligible(t[j]) ensures metric(s[k]) <= metric(t[j]) {
      var i :| 0 <= i < |s| && s[i] == t[j];
    }
    assert IsFirstLeast(t, 0, metric, eligible);
    ScanPicksExactlyFirstLeast(t, 0, metric, eligible);
  }

  /** The loop shared by lfs, lfsEntries, lno and lnoEntries, run over the
      already shuffled slice. */
  method ScanLeast<T>(a: array<T>, metric: T -> int64, eligible: T -> bool) returns (best: Option<T>)
    ensures best == Winner(a[..], metric, eligible)
  {
    var min := MaxInt64;
    best := None;
    ghost var at: Option<nat> := None;
    for i := 0 to a.Length
      invariant ScanOf(a[..i], metric, eligible) == ScanState(min, at)
      invariant at.Some? ==> at.value < i
      invariant best == if at.Some? then Some(a[at.value]) else None
    {
      var x := a[i];
      var value := metric(x);
      if value < min && eligible(x) {
        min := value;
        best := Some(x);
        at := Some(i);
      }
      assert a[..i + 1][..i] == a[..i];
    }
    assert a[..a.Length] == a[..];
  }
}
