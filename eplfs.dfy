/** The "eplfs" policy (existing path, least free space): of the upstreams on
    which the path exists, choose the one with the least free space that still
    has more than its own reserve free; equal free space is broken at random. */
module EpLfs {
  import opened Outcomes
  import opened Upstreams
  import opened Shuffling
  import opened Reduction

  /** The free space compared for an upstream: the value GetFreeSpace returned,
      whether or not it also returned an error. */
  function FreeSpace(u: Upstream): int64 {
    u.freeSpace
  }

  /** The reserve check `space > int64(u.Opt.MinFreeSpace)`. */
  predicate AboveReserve(u: Upstream) {
    u.freeSpace > u.minFreeSpace
  }

  function EntryFreeSpace(e: Entry): int64 {
    FreeSpace(UpstreamFs(e))
  }

  predicate EntryAboveReserve(e: Entry) {
    AboveReserve(UpstreamFs(e))
  }

  /** An upstream lfs can choose: above its reserve and below math.MaxInt64. */
  predicate Spare(u: Upstream) {
    u.minFreeSpace < u.freeSpace < MaxInt64
  }

  /** What lfs and lfsEntries return for the winner of their scan. */
  function LfsReply<T>(w: Option<T>): Reply<Option<T>> {
    if w.Some? then Reply(w, None) else Reply(None, Some(ErrNoUpstreamsFound))
  }

  /** What `lfs` returns for the slice s when the shuffle draws d. */
  function LfsOf(s: seq<Upstream>, d: seq<nat>): Reply<Option<Upstream>>
    requires ValidDraws(d, |s|)
  {
    LfsReply(Winner(Shuffled(s, d), FreeSpace, AboveReserve))
  }

  /** What `lfsEntries` returns for the slice s when the shuffle draws d. */
  function LfsEntriesOf(s: seq<Entry>, d: seq<nat>): Reply<Option<Entry>>
    requires ValidDraws(d, |s|)
  {
    LfsReply(Winner(Shuffled(s, d), EntryFreeSpace, EntryAboveReserve))
  }

  /** `lfs`: shuffle the slice in place, then keep the upstream with the least
      free space above its reserve. */
  method Lfs(upstreams: array<Upstream>, draws: seq<nat>) returns (r: Reply<Option<Upstream>>)
    requires ValidDraws(draws, upstreams.Length)
    modifies upstreams
    ensures upstreams[..] == Shuffled(old(upstreams[..]), draws)
    ensures r == LfsOf(old(upstreams[..]), draws)
  {
    Shuffle(upstreams, draws);
    var u := ScanLeast(upstreams, FreeSpace, AboveReserve);
    if u.None? {
      return Reply(None, Some(ErrNoUpstreamsFound));
    }
    return Reply(u, None);
  }

  /** `lfsEntries`: the same reduction over listed entries, measured by the
      upstream each entry came from. */
  method LfsEntries(entries: array<Entry>, draws: seq<nat>) returns (r: Reply<Option<Entry>>)
    requires ValidDraws(draws, entries.Length)
    modifies entries
    ensures entries[..] == Shuffled(old(entries[..]), draws)
    ensures r == LfsEntriesOf(old(entries[..]), draws)
  {
    Shuffle(entries, draws);
    var e := ScanLeast(entries, EntryFreeSpace, EntryAboveReserve);
    if e.None? {
      return Reply(None, Some(ErrNoUpstreamsFound));
    }
    return Reply(e, None);
  }

  /** lfs fails, with errNoUpstreamsFound and a nil upstream, exactly when no
      upstream is spare; otherwise it returns an upstream and a nil error. */
  lemma LfsFailsExactlyWhenNoneSpare(s: seq<Upstream>, d: seq<nat>)
    requires ValidDraws(d, |s|)
    ensures LfsOf(s, d).err.Some? <==> forall k :: 0 <= k < |s| ==> !Spare(s[k])
    ensures LfsOf(s, d).err.Some? ==> LfsOf(s, d) == Reply(None, Some(ErrNoUpstreamsFound))
    ensures LfsOf(s, d).err.None? ==> LfsOf(s, d).value.Some?
  {
    WinnerOfShuffled(s, d, FreeSpace, AboveReserve);
    if HasCandidate(s, FreeSpace, AboveReserve) {
      var k :| 0 <= k < |s| && Candidate(s[k], FreeSpace, AboveReserve);
      assert Spare(s[k]);
    }
  }

  /** The upstream lfs returns is one of its input, is above its own reserve,
      and has no more free space than any input upstream above its reserve. */
  lemma LfsPicksLeastAboveReserve(s: seq<Upstream>, d: seq<nat>)
    requires ValidDraws(d, |s|)
    ensures LfsOf(s, d).value.Some? ==>
      var u := LfsOf(s, d).value.value;
      && u in s
      && u.freeSpace > u.minFreeSpace
      && forall v :: v in s && v.freeSpace > v.minFreeSpace ==> u.freeSpace <= v.freeSpace
  {
    WinnerOfShuffled(s, d, FreeSpace, AboveReserve);
  }

  /** Equal free space is broken by the shuffled order: the winner is the first
      upstream in that order with the least spare free space. */
  lemma LfsTieKeepsFirst(s: seq<Upstream>, d: seq<nat>)
    requires ValidDraws(d, |s|)
    ensures LfsOf(s, d).value.Some? ==>
      var t := Shuffled(s, d);
      var u := LfsOf(s, d).value.value;
      exists w :: 0 <= w < |t| && t[w] == u &&
        forall k :: 0 <= k < w && AboveReserve(t[k]) ==> t[k].freeSpace > u.freeSpace
  {
    var t := Shuffled(s, d);
    ScanFindsFirstLeast(t, FreeSpace, AboveReserve);
    if LfsOf(s, d).value.Some? {
      var w := ScanOf(t, FreeSpace, AboveReserve).best.value;
      assert IsFirstLeast(t, w, FreeSpace, AboveReserve);
    }
  }

  /** A failed free-space query neither aborts lfs nor removes the upstream from
      the comparison: inputs that differ only in whether the queries failed
      yield the same outcome, from the same position. */
  lemma LfsIgnoresQueryErrors(s: seq<Upstream>, s': seq<Upstream>, d: seq<nat>)
    requires ValidDraws(d, |s|) && |s'| == |s|
    requires forall k :: 0 <= k < |s| ==>
      s'[k].freeSpace == s[k].freeSpace && s'[k].minFreeSpace == s[k].minFreeSpace
    ensures ScanOf(Shuffled(s, d), FreeSpace, AboveReserve) == ScanOf(Shuffled(s', d), FreeSpace, AboveReserve)
    ensures LfsOf(s, d).err == LfsOf(s', d).err
  {
    var t, t' := Shuffled(s, d), Shuffled(s', d);
    ShuffledIsPermutation(s, d);
    ShuffledIsPermutation(s', d);
    forall k | 0 <= k < |t|
      ensures FreeSpace(t[k]) == FreeSpace(t'[k]) && AboveReserve(t[k]) == AboveReserve(t'[k])
    {
      ShuffledAt(s, d, k);
      ShuffledAt(s', d, k);
    }
    ScanSeesOnlyReadings(t, t', FreeSpace, AboveReserve, FreeSpace, AboveReserve);
  }

  /** Every upstream tied for the least spare free space can win: some draws of
      the shuffle make lfs return it. */
  lemma LfsEveryTiedCanWin(s: seq<Upstream>, k: nat)
    requires k < |s| && Spare(s[k])
    requires forall v :: v in s && v.freeSpace > v.minFreeSpace ==> s[k].freeSpace <= v.freeSpace
    ensures LfsOf(s, LeadDraws(|s|, k)) == Reply(Some(s[k]), None)
  {
    EveryLeastCanWin(s, k, FreeSpace, AboveReserve);
  }

  /** lfsEntries fails, with errNoUpstreamsFound and a nil entry, exactly when no
      entry's upstream is spare. */
  lemma LfsEntriesFailsExactlyWhenNoneSpare(s: seq<Entry>, d: seq<nat>)
    requires ValidDraws(d, |s|)
    ensures LfsEntriesOf(s, d).err.Some? <==> forall k :: 0 <= k < |s| ==> !Spare(s[k].owner)
    ensures LfsEntriesOf(s, d).err.Some? ==> LfsEntriesOf(s, d) == Reply(None, Some(ErrNoUpstreamsFound))
    ensures LfsEntriesOf(s, d).err.None? ==> LfsEntriesOf(s, d).value.Some?
  {
    WinnerOfShuffled(s, d, EntryFreeSpace, EntryAboveReserve);
    if HasCandidate(s, EntryFreeSpace, EntryAboveReserve) {
      var k :| 0 <= k < |s| && Candidate(s[k], EntryFreeSpace, EntryAboveReserve);
      assert Spare(s[k].owner);
    }
  }

  /** The entry lfsEntries returns is one of its input, its upstream is above
      its reserve, and no input entry whose upstream is above its reserve has
      less free space. */
  lemma LfsEntriesPicksLeastAboveReserve(s: seq<Entry>, d: seq<nat>)
    requires ValidDraws(d, |s|)
    ensures LfsEntriesOf(s, d).value.Some? ==>
      var e := LfsEntriesOf(s, d).value.value;
      && e in s
      && e.owner.freeSpace > e.owner.minFreeSpace
      && forall f :: f in s && f.owner.freeSpace > f.owner.minFreeSpace ==> e.owner.freeSpace <= f.owner.freeSpace
  {
    WinnerOfShuffled(s, d, EntryFreeSpace, EntryAboveReserve);
  }

  /** Action category: filter with `EpAll.Action`, then reduce with lfs. A
      filter error comes back unchanged with a nil list; otherwise the list has
      one element, nil when lfs fails. */
  method Action(upstreams: seq<Upstream>, path: string, epAll: UpstreamFilter, draws: seq<nat>)
      returns (r: Reply<seq<Option<Upstream>>>)
    requires Within(epAll(ActionFilter, upstreams, path), upstreams)
    requires DrawsFit(epAll(ActionFilter, upstreams, path), draws)
    ensures var f := epAll(ActionFilter, upstreams, path);
      && (f.Err? ==> r == Reply([], Some(f.error)))
      && (f.Ok? ==> r == Reply([LfsOf(f.value, draws).value], LfsOf(f.value, draws).err))
    ensures r.err.None? ==>
      |r.value| == 1 && r.value[0].Some? && r.value[0].value in upstreams && AboveReserve(r.value[0].value)
  {
    var f := epAll(ActionFilter, upstreams, path);
    if f.Err? {
      return Reply([], Some(f.error));
    }
    var candidates := new Upstream[|f.value|](i requires 0 <= i < |f.value| => f.value[i]);
    assert candidates[..] == f.value;
    var u := Lfs(candidates, draws);
    LfsFailsExactlyWhenNoneSpare(f.value, draws);
    LfsPicksLeastAboveReserve(f.value, draws);
    if u.value.Some? {
      assert u.value.value in multiset(f.value);
    }
    return Reply([u.value], u.err);
  }

  /** ActionEntries: filter with `EpAll.ActionEntries`, then reduce with lfsEntries. */
  method ActionEntries(entries: seq<Entry>, epAll: EntryFilter, draws: seq<nat>)
      returns (r: Reply<seq<Option<Entry>>>)
    requires Within(epAll(ActionFilter, entries), entries)
    requires DrawsFit(epAll(ActionFilter, entries), draws)
    ensures var f := epAll(ActionFilter, entries);
      && (f.Err? ==> r == Reply([], Some(f.error)))
      && (f.Ok? ==> r == Reply([LfsEntriesOf(f.value, draws).value], LfsEntriesOf(f.value, draws).err))
    ensures r.err.None? ==>
      |r.value| == 1 && r.value[0].Some? && r.value[0].value in entries && EntryAboveReserve(r.value[0].value)
  {
    var f := epAll(ActionFilter, entries);
    if f.Err? {
      return Reply([], Some(f.error));
    }
    var candidates := new Entry[|f.value|](i requires 0 <= i < |f.value| => f.value[i]);
    assert candidates[..] == f.value;
    var e := LfsEntries(candidates, draws);
    LfsEntriesFailsExactlyWhenNoneSpare(f.value, draws);
    LfsEntriesPicksLeastAboveReserve(f.value, draws);
    if e.value.Some? {
      assert e.value.value in multiset(f.value);
    }
    return Reply([e.value], e.err);
  }

  /** Create category: filter with `EpAll.Create`, then reduce with lfs. */
  method Create(upstreams: seq<Upstream>, path: string, epAll: UpstreamFilter, draws: seq<nat>)
      returns (r: Reply<seq<Option<Upstream>>>)
    requires Within(epAll(CreateFilter, upstreams, path), upstreams)
    requires DrawsFit(epAll(CreateFilter, upstreams, path), draws)
    ensures var f := epAll(CreateFilter, upstreams, path);
      && (f.Err? ==> r == Reply([], Some(f.error)))
      && (f.Ok? ==> r == Reply([LfsOf(f.value, draws).value], LfsOf(f.value, draws).err))
    ensures r.err.None? ==>
      |r.value| == 1 && r.value[0].Some? && r.value[0].value in upstreams && AboveReserve(r.value[0].value)
  {
    var f := epAll(CreateFilter, upstreams, path);
    if f.Err? {
      return Reply([], Some(f.error));
    }
    var candidates := new Upstream[|f.value|](i requires 0 <= i < |f.value| => f.value[i]);
    assert candidates[..] == f.value;
    var u := Lfs(candidates, draws);
    LfsFailsExactlyWhenNoneSpare(f.value, draws);
    LfsPicksLeastAboveReserve(f.value, draws);
    if u.value.Some? {
      assert u.value.value in multiset(f.value);
    }
    return Reply([u.value], u.err);
  }

  /** CreateEntries: filter with `EpAll.CreateEntries`, then reduce with lfsEntries. */
  method CreateEntries(entries: seq<Entry>, epAll: EntryFilter, draws: seq<nat>)
      returns (r: Reply<seq<Option<Entry>>>)
    requires Within(epAll(CreateFilter, entries), entries)
    requires DrawsFit(epAll(CreateFilter, entries), draws)
    ensures var f := epAll(CreateFilter, entries);
      && (f.Err? ==> r == Reply([], Some(f.error)))
      && (f.Ok? ==> r == Reply([LfsEntriesOf(f.value, draws).value], LfsEntriesOf(f.value, draws).err))
    ensures r.err.None? ==>
      |r.value| == 1 && r.value[0].Some? && r.value[0].value in entries && EntryAboveReserve(r.value[0].value)
  {
    var f := epAll(CreateFilter, entries);
    if f.Err? {
      return Reply([], Some(f.error));
    }
    var candidates := new Entry[|f.value|](i requires 0 <= i < |f.value| => f.value[i]);
    assert candidates[..] == f.value;
    var e := LfsEntries(candidates, draws);
    LfsEntriesFailsExactlyWhenNoneSpare(f.value, draws);
    LfsEntriesPicksLeastAboveReserve(f.value, draws);
    if e.value.Some? {
      assert e.value.value in multiset(f.value);
    }
    return Reply([e.value], e.err);
  }

  /** Search category: an empty input is ErrorObjectNotFound before anything
      else happens; otherwise filter with `epall` and reduce with lfs, returning
      the upstream itself rather than a list. */
  method Search(upstreams: seq<Upstream>, path: string, epAll: UpstreamFilter, draws: seq<nat>)
      returns (r: Reply<Option<Upstream>>)
    requires Within(epAll(ExistingFilter, upstreams, path), upstreams)
    requires DrawsFit(epAll(ExistingFilter, upstreams, path), draws)
    ensures |upstreams| == 0 ==> r == Reply(None, Some(ErrorObjectNotFound))
    ensures var f := epAll(ExistingFilter, upstreams, path);
      |upstreams| > 0 ==> r == if f.Err? then Reply(None, Some(f.error)) else LfsOf(f.value, draws)
    ensures r.err.None? ==> r.value.Some? && r.value.value in upstreams && AboveReserve(r.value.value)
  {
    if |upstreams| == 0 {
      return Reply(None, Some(ErrorObjectNotFound));
    }
    var f := epAll(ExistingFilter, upstreams, path);
    if f.Err? {
      return Reply(None, Some(f.error));
    }
    var candidates := new Upstream[|f.value|](i requires 0 <= i < |f.value| => f.value[i]);
    assert candidates[..] == f.value;
    r := Lfs(candidates, draws);
    LfsFailsExactlyWhenNoneSpare(f.value, draws);
    LfsPicksLeastAboveReserve(f.value, draws);
    if r.value.Some? {
      assert r.value.value in multiset(f.value);
    }
  }

  /** SearchEntries: an empty list is ErrorObjectNotFound; otherwise lfsEntries
      runs directly on the caller's slice, with no filter, and shuffles it. */
  method SearchEntries(entries: array<Entry>, draws: seq<nat>) returns (r: Reply<Option<Entry>>)
    requires ValidDraws(draws, entries.Length)
    modifies entries
    ensures entries.Length == 0 ==> r == Reply(None, Some(ErrorObjectNotFound))
    ensures entries.Length > 0 ==> r == LfsEntriesOf(old(entries[..]), draws)
    ensures entries[..] == Shuffled(old(entries[..]), draws)
  {
    if entries.Length == 0 {
      return Reply(None, Some(ErrorObjectNotFound));
    }
    r := LfsEntries(entries, draws);
  }

  /** Free space 100, 50 and 200 with no reserve: B, whatever the shuffle. */
  lemma LeastFreeSpaceWins(d: seq<nat>)
    requires ValidDraws(d, 3)
    ensures var a := Upstream("A", 100, false, 0, false, 0);
            var b := Upstream("B", 50, false, 0, false, 0);
            var c := Upstream("C", 200, false, 0, false, 0);
            LfsOf([a, b, c], d) == Reply(Some(b), None)
  {
    var a := Upstream("A", 100, false, 0, false, 0);
    var b := Upstream("B", 50, false, 0, false, 0);
    var c := Upstream("C", 200, false, 0, false, 0);
    var s := [a, b, c];
    LfsFailsExactlyWhenNoneSpare(s, d);
    assert Spare(s[1]);
    LfsPicksLeastAboveReserve(s, d);
  }

  /** A has 10 free but reserves 20, B has 5 and reserves nothing: A is not
      eligible and B wins, whatever the shuffle. */
  lemma ReserveExcludesSmallerUpstream(d: seq<nat>)
    requires ValidDraws(d, 2)
    ensures var a := Upstream("A", 10, false, 0, false, 20);
            var b := Upstream("B", 5, false, 0, false, 0);
            LfsOf([a, b], d) == Reply(Some(b), None)
  {
    var a := Upstream("A", 10, false, 0, false, 20);
    var b := Upstream("B", 5, false, 0, false, 0);
    var s := [a, b];
    LfsFailsExactlyWhenNoneSpare(s, d);
    assert Spare(s[1]);
    LfsPicksLeastAboveReserve(s, d);
  }

  /** Both upstreams at or under their reserve: errNoUpstreamsFound. */
  lemma AllUnderReserveFails(d: seq<nat>)
    requires ValidDraws(d, 2)
    ensures var a := Upstream("A", 10, false, 0, false, 20);
            var b := Upstream("B", 5, false, 0, false, 10);
            LfsOf([a, b], d) == Reply(None, Some(ErrNoUpstreamsFound))
  {
    var a := Upstream("A", 10, false, 0, false, 20);
    var b := Upstream("B", 5, false, 0, false, 10);
    LfsFailsExactlyWhenNoneSpare([a, b], d);
  }
}
