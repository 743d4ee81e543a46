/** The "eplno" policy (existing path, least number of objects): of the
    upstreams on which the path exists, choose the one holding the fewest
    objects; equal counts are broken at random. */
module EpLno {
  import opened Outcomes
  import opened Upstreams
  import opened Shuffling
  import opened Reduction

  /** The count compared for an upstream: the value GetNumObjects returned,
      whether or not it also returned an error. */
  function NumObjects(u: Upstream): int64 {
    u.numObjects
  }

  /** lno puts no condition on an upstream beyond the comparison itself. */
  predicate Compared(u: Upstream) {
    true
  }

  function EntryNumObjects(e: Entry): int64 {
    NumObjects(UpstreamFs(e))
  }

  predicate EntryCompared(e: Entry) {
    Compared(UpstreamFs(e))
  }

  /** What `lno` returns for the slice s when the shuffle draws d. */
  function LnoOf(s: seq<Upstream>, d: seq<nat>): Reply<Option<Upstream>>
    requires ValidDraws(d, |s|)
  {
    var w := Winner(Shuffled(s, d), NumObjects, Compared);
    if w.Some? then Reply(w, None) else Reply(None, Some(ErrorObjectNotFound))
  }

  /** What `lnoEntries` returns for the slice s when the shuffle draws d: its
      error is always nil. */
  function LnoEntriesOf(s: seq<Entry>, d: seq<nat>): Reply<Option<Entry>>
    requires ValidDraws(d, |s|)
  {
    Reply(Winner(Shuffled(s, d), EntryNumObjects, EntryCompared), None)
  }

  /** `lno`: shuffle the slice in place, then keep the upstream with the fewest objects. */
  method Lno(upstreams: array<Upstream>, draws: seq<nat>) returns (r: Reply<Option<Upstream>>)
    requires ValidDraws(draws, upstreams.Length)
    modifies upstreams
    ensures upstreams[..] == Shuffled(old(upstreams[..]), draws)
    ensures r == LnoOf(old(upstreams[..]), draws)
  {
    Shuffle(upstreams, draws);
    var u := ScanLeast(upstreams, NumObjects, Compared);
    if u.None? {
      return Reply(None, Some(ErrorObjectNotFound));
    }
    return Reply(u, None);
  }

  /** `lnoEntries`: the same reduction over listed entries; a nil entry comes
      back with a nil error. */
  method LnoEntries(entries: array<Entry>, draws: seq<nat>) returns (r: Reply<Option<Entry>>)
    requires ValidDraws(draws, entries.Length)
    modifies entries
    ensures entries[..] == Shuffled(old(entries[..]), draws)
    ensures r == LnoEntriesOf(old(entries[..]), draws)
  {
    Shuffle(entries, draws);
    var e := ScanLeast(entries, EntryNumObjects, EntryCompared);
    return Reply(e, None);
  }

  /** lno fails, with ErrorObjectNotFound and a nil upstream, exactly when every
      count equals math.MaxInt64 (the empty input among them). */
  lemma LnoFailsExactlyWhenAllAtMax(s: seq<Upstream>, d: seq<nat>)
    requires ValidDraws(d, |s|)
    ensures LnoOf(s, d).err.Some? <==> forall k :: 0 <= k < |s| ==> s[k].numObjects == MaxInt64
    ensures LnoOf(s, d).err.Some? ==> LnoOf(s, d) == Reply(None, Some(ErrorObjectNotFound))
    ensures LnoOf(s, d).err.None? ==> LnoOf(s, d).value.Some?
  {
    WinnerOfShuffled(s, d, NumObjects, Compared);
    if HasCandidate(s, NumObjects, Compared) {
      var k :| 0 <= k < |s| && Candidate(s[k], NumObjects, Compared);
      assert s[k].numObjects != MaxInt64;
    } else {
      forall k | 0 <= k < |s| ensures s[k].numObjects == MaxInt64 {
        assert !Candidate(s[k], NumObjects, Compared);
      }
    }
  }

  /** The upstream lno returns is one of its input and holds no more objects
      than any input upstream. */
  lemma LnoPicksFewestObjects(s: seq<Upstream>, d: seq<nat>)
    requires ValidDraws(d, |s|)
    ensures LnoOf(s, d).value.Some? ==>
      var u := LnoOf(s, d).value.value;
      u in s && forall v :: v in s ==> u.numObjects <= v.numObjects
  {
    WinnerOfShuffled(s, d, NumObjects, Compared);
  }

  /** Equal counts are broken by the shuffled order: the winner is the first
      upstream in that order with the fewest objects. */
  lemma LnoTieKeepsFirst(s: seq<Upstream>, d: seq<nat>)
    requires ValidDraws(d, |s|)
    ensures LnoOf(s, d).value.Some? ==>
      var t := Shuffled(s, d);
      var u := LnoOf(s, d).value.value;
      exists w :: 0 <= w < |t| && t[w] == u && forall k :: 0 <= k < w ==> t[k].numObjects > u.numObjects
  {
    var t := Shuffled(s, d);
    ScanFindsFirstLeast(t, NumObjects, Compared);
    if LnoOf(s, d).value.Some? {
      var w := ScanOf(t, NumObjects, Compared).best.value;
      assert IsFirstLeast(t, w, NumObjects, Compared);
    }
  }

  /** A failed object-count query neither aborts lno nor removes the upstream
      from the comparison: inputs that differ only in whether the queries failed
      yield the same outcome, from the same position. */
  lemma LnoIgnoresQueryErrors(s: seq<Upstream>, s': seq<Upstream>, d: seq<nat>)
    requires ValidDraws(d, |s|) && |s'| == |s|
    requires forall k :: 0 <= k < |s| ==> s'[k].numObjects == s[k].numObjects
    ensures ScanOf(Shuffled(s, d), NumObjects, Compared) == ScanOf(Shuffled(s', d), NumObjects, Compared)
    ensures LnoOf(s, d).err == LnoOf(s', d).err
  {
    var t, t' := Shuffled(s, d), Shuffled(s', d);
    ShuffledIsPermutation(s, d);
    ShuffledIsPermutation(s', d);
    forall k | 0 <= k < |t| ensures NumObjects(t[k]) == NumObjects(t'[k]) {
      ShuffledAt(s, d, k);
      ShuffledAt(s', d, k);
    }
    ScanSeesOnlyReadings(t, t', NumObjects, Compared, NumObjects, Compared);
  }

  /** Every upstream tied for the fewest objects can win: some draws of the
      shuffle make lno return it. */
  lemma LnoEveryTiedCanWin(s: seq<Upstream>, k: nat)
    requires k < |s| && s[k].numObjects < MaxInt64
    requires forall v :: v in s ==> s[k].numObjects <= v.numObjects
    ensures LnoOf(s, LeadDraws(|s|, k)) == Reply(Some(s[k]), None)
  {
    EveryLeastCanWin(s, k, NumObjects, Compared);
  }

  /** lnoEntries never fails: its error is nil, its entry is nil exactly when
      every count equals math.MaxInt64 (the empty input among them), and
      otherwise it is an input entry with the fewest objects. */
  lemma LnoEntriesNeverFails(s: seq<Entry>, d: seq<nat>)
    requires ValidDraws(d, |s|)
    ensures LnoEntriesOf(s, d).err == None
    ensures LnoEntriesOf(s, d).value.None? <==> forall k :: 0 <= k < |s| ==> s[k].owner.numObjects == MaxInt64
    ensures LnoEntriesOf(s, d).value.Some? ==>
      var e := LnoEntriesOf(s, d).value.value;
      e in s && forall f :: f in s ==> e.owner.numObjects <= f.owner.numObjects
  {
    WinnerOfShuffled(s, d, EntryNumObjects, EntryCompared);
    if HasCandidate(s, EntryNumObjects, EntryCompared) {
      var k :| 0 <= k < |s| && Candidate(s[k], EntryNumObjects, EntryCompared);
      assert s[k].owner.numObjects != MaxInt64;
    } else {
      forall k | 0 <= k < |s| ensures s[k].owner.numObjects == MaxInt64 {
        assert !Candidate(s[k], EntryNumObjects, EntryCompared);
      }
    }
  }

  /** Action category: filter with `EpAll.Action`, then reduce with lno. A
      filter error comes back unchanged with a nil list; otherwise the list has
      one element, nil when lno fails. */
  method Action(upstreams: seq<Upstream>, path: string, epAll: UpstreamFilter, draws: seq<nat>)
      returns (r: Reply<seq<Option<Upstream>>>)
    requires Within(epAll(ActionFilter, upstreams, path), upstreams)
    requires DrawsFit(epAll(ActionFilter, upstreams, path), draws)
    ensures var f := epAll(ActionFilter, upstreams, path);
      && (f.Err? ==> r == Reply([], Some(f.error)))
      && (f.Ok? ==> r == Reply([LnoOf(f.value, draws).value], LnoOf(f.value, draws).err))
    ensures r.err.None? ==> |r.value| == 1 && r.value[0].Some? && r.value[0].value in upstreams
  {
    var f := epAll(ActionFilter, upstreams, path);
    if f.Err? {
      return Reply([], Some(f.error));
    }
    var candidates := new Upstream[|f.value|](i requires 0 <= i < |f.value| => f.value[i]);
    assert candidates[..] == f.value;
    var u := Lno(candidates, draws);
    LnoFailsExactlyWhenAllAtMax(f.value, draws);
    LnoPicksFewestObjects(f.value, draws);
    if u.value.Some? {
      assert u.value.value in multiset(f.value);
    }
    return Reply([u.value], u.err);
  }

  /** ActionEntries: filter with `EpAll.ActionEntries`, then reduce with
      lnoEntries; a successful filter always yields a one-element list and a
      nil error, the element being nil when lnoEntries finds nothing. */
  method ActionEntries(entries: seq<Entry>, epAll: EntryFilter, draws: seq<nat>)
      returns (r: Reply<seq<Option<Entry>>>)
    requires Within(epAll(ActionFilter, entries), entries)
    requires DrawsFit(epAll(ActionFilter, entries), draws)
    ensures var f := epAll(ActionFilter, entries);
      && (f.Err? ==> r == Reply([], Some(f.error)))
      && (f.Ok? ==> r == Reply([LnoEntriesOf(f.value, draws).value], None))
    ensures |r.value| == 1 && r.value[0].Some? ==> r.value[0].value in entries
  {
    var f := epAll(ActionFilter, entries);
    if f.Err? {
      return Reply([], Some(f.error));
    }
    var candidates := new Entry[|f.value|](i requires 0 <= i < |f.value| => f.value[i]);
    assert candidates[..] == f.value;
    var e := LnoEntries(candidates, draws);
    LnoEntriesNeverFails(f.value, draws);
    if e.value.Some? {
      assert e.value.value in multiset(f.value);
    }
    return Reply([e.value], e.err);
  }

  /** Create category: filter with `EpAll.Create`, then reduce with lno. */
  method Create(upstreams: seq<Upstream>, path: string, epAll: UpstreamFilter, draws: seq<nat>)
      returns (r: Reply<seq<Option<Upstream>>>)
    requires Within(epAll(CreateFilter, upstreams, path), upstreams)
    requires DrawsFit(epAll(CreateFilter, upstreams, path), draws)
    ensures var f := epAll(CreateFilter, upstreams, path);
      && (f.Err? ==> r == Reply([], Some(f.error)))
      && (f.Ok? ==> r == Reply([LnoOf(f.value, draws).value], LnoOf(f.value, draws).err))
    ensures r.err.None? ==> |r.value| == 1 && r.value[0].Some? && r.value[0].value in upstreams
  {
    var f := epAll(CreateFilter, upstreams, path);
    if f.Err? {
      return Reply([], Some(f.error));
    }
    var candidates := new Upstream[|f.value|](i requires 0 <= i < |f.value| => f.value[i]);
    assert candidates[..] == f.value;
    var u := Lno(candidates, draws);
    LnoFailsExactlyWhenAllAtMax(f.value, draws);
    LnoPicksFewestObjects(f.value, draws);
    if u.value.Some? {
      assert u.value.value in multiset(f.value);
    }
    return Reply([u.value], u.err);
  }

  /** CreateEntries: filter with `EpAll.CreateEntries`, then reduce with lnoEntries. */
  method CreateEntries(entries: seq<Entry>, epAll: EntryFilter, draws: seq<nat>)
      returns (r: Reply<seq<Option<Entry>>>)
    requires Within(epAll(CreateFilter, entries), entries)
    requires DrawsFit(epAll(CreateFilter, entries), draws)
    ensures var f := epAll(CreateFilter, entries);
      && (f.Err? ==> r == Reply([], Some(f.error)))
      && (f.Ok? ==> r == Reply([LnoEntriesOf(f.value, draws).value], None))
    ensures |r.value| == 1 && r.value[0].Some? ==> r.value[0].value in entries
  {
    var f := epAll(CreateFilter, entries);
    if f.Err? {
      return Reply([], Some(f.error));
    }
    var candidates := new Entry[|f.value|](i requires 0 <= i < |f.value| => f.value[i]);
    assert candidates[..] == f.value;
    var e := LnoEntries(candidates, draws);
    LnoEntriesNeverFails(f.value, draws);
    if e.value.Some? {
      assert e.value.value in multiset(f.value);
    }
    return Reply([e.value], e.err);
  }

  /** Search category: an empty input is ErrorObjectNotFound before anything
      else happens; otherwise filter with `epall` and reduce with lno. */
  method Search(upstreams: seq<Upstream>, path: string, epAll: UpstreamFilter, draws: seq<nat>)
      returns (r: Reply<Option<Upstream>>)
    requires Within(epAll(ExistingFilter, upstreams, path), upstreams)
    requires DrawsFit(epAll(ExistingFilter, upstreams, path), draws)
    ensures |upstreams| == 0 ==> r == Reply(None, Some(ErrorObjectNotFound))
    ensures var f := epAll(ExistingFilter, upstreams, path);
      |upstreams| > 0 ==> r == if f.Err? then Reply(None, Some(f.error)) else LnoOf(f.value, draws)
    ensures r.err.None? ==> r.value.Some? && r.value.value in upstreams
  {
    if |upstreams| == 0 {
      return Reply(None, Some(ErrorObjectNotFound));
    }
    var f := epAll(ExistingFilter, upstreams, path);
    if f.Err? {
      return Reply(None, Some(f.error));
    }
    var candidates := new Upstream[|f.value|](i requires 0 <= i < |f.value| => f.value[i]);
    assert candidates[..] == f.value;
    r := Lno(candidates, draws);
    LnoFailsExactlyWhenAllAtMax(f.value, draws);
    LnoPicksFewestObjects(f.value, draws);
    if r.value.Some? {
      assert r.value.value in multiset(f.value);
    }
  }

  /** SearchEntries: an empty list is ErrorObjectNotFound; otherwise lnoEntries
      runs directly on the caller's slice, with no filter, and shuffles it. */
  method SearchEntries(entries: array<Entry>, draws: seq<nat>) returns (r: Reply<Option<Entry>>)
    requires ValidDraws(draws, entries.Length)
    modifies entries
    ensures entries.Length == 0 ==> r == Reply(None, Some(ErrorObjectNotFound))
    ensures entries.Length > 0 ==> r == LnoEntriesOf(old(entries[..]), draws)
    ensures entries[..] == Shuffled(old(entries[..]), draws)
  {
    if entries.Length == 0 {
      return Reply(None, Some(ErrorObjectNotFound));
    }
    r := LnoEntries(entries, draws);
  }

  /** Counts 5, 5 and 9: A or B whatever the shuffle, never C, and each of A
      and B under some shuffle. */
  lemma TiedFewestObjectsShareTheWin(d: seq<nat>)
    requires ValidDraws(d, 3)
    ensures var a := Upstream("A", 0, false, 5, false, 0);
            var b := Upstream("B", 0, false, 5, false, 0);
            var c := Upstream("C", 0, false, 9, false, 0);
            && LnoOf([a, b, c], d).value in {Some(a), Some(b)}
            && LnoOf([a, b, c], LeadDraws(3, 0)).value == Some(a)
            && LnoOf([a, b, c], LeadDraws(3, 1)).value == Some(b)
  {
    var a := Upstream("A", 0, false, 5, false, 0);
    var b := Upstream("B", 0, false, 5, false, 0);
    var c := Upstream("C", 0, false, 9, false, 0);
    var s := [a, b, c];
    LnoFailsExactlyWhenAllAtMax(s, d);
    assert s[0].numObjects != MaxInt64;
    LnoPicksFewestObjects(s, d);
    LnoEveryTiedCanWin(s, 0);
    LnoEveryTiedCanWin(s, 1);
  }
}
