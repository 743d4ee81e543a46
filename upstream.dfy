/** The union backend's view of its members: upstream handles, listed entries,
    and the existing-path filter (`EpAll`) that every policy runs first. */
module Upstreams {
  import opened Outcomes
  import opened Shuffling

  /** Go's int64. */
  newtype int64 = x: int | -0x8000_0000_0000_0000 <= x < 0x8000_0000_0000_0000

  /** math.MaxInt64, the starting value of every running minimum. */
  const MaxInt64: int64 := 0x7fff_ffff_ffff_ffff

  /** One member of the union (`*upstream.Fs`). The capacity getters are not
      modelled: each is represented by the value it returns and by whether it
      returned an error alongside that value. */
  datatype Upstream = Upstream(
    name: string,
    freeSpace: int64,          // the value GetFreeSpace returns
    freeSpaceFailed: bool,     // GetFreeSpace returned a non-nil error
    numObjects: int64,         // the value GetNumObjects returns
    numObjectsFailed: bool,    // GetNumObjects returned a non-nil error
    minFreeSpace: int64)       // Opt.MinFreeSpace, the reserve to keep free

  /** A listed object or directory (`upstream.Entry`) and the upstream it came from. */
  datatype Entry = Entry(remote: string, owner: Upstream)

  /** `e.UpstreamFs()`. */
  function UpstreamFs(e: Entry): Upstream {
    e.owner
  }

  /** Which entry point of the embedded `EpAll` policy a dispatcher calls:
      `EpAll.Action`, `EpAll.Create`, or the bare existence filter `epall`
      that the Search category uses. */
  datatype FilterCall = ActionFilter | CreateFilter | ExistingFilter

  /** The existing-path filter over upstreams, given the path. */
  type UpstreamFilter = (FilterCall, seq<Upstream>, string) -> Result<seq<Upstream>>

  /** The existing-path filter over listed entries (`ActionEntries`, `CreateEntries`). */
  type EntryFilter = (FilterCall, seq<Entry>) -> Result<seq<Entry>>

  /** What the filter promises its callers: on success it keeps some of the
      candidates it was given, and nothing else. */
  ghost predicate Within<T>(r: Result<seq<T>>, input: seq<T>) {
    r.Ok? ==> multiset(r.value) <= multiset(input)
  }

  /** The random source's draws cover the shuffle of whatever the filter kept. */
  predicate DrawsFit<T>(r: Result<seq<T>>, d: seq<nat>) {
    r.Ok? ==> ValidDraws(d, |r.value|)
  }
}
