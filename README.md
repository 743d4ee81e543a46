# Union backend tie-break policies: eplfs and eplno

This project models, in Dafny, two selection policies of rclone's union
backend. A union presents several storage backends ("upstreams") as one
namespace, and for each operation a policy decides which upstream carries it
out. Both policies modelled here start from the "existing path" policy
(`EpAll`), which keeps the upstreams (or listed entries) on which the path
exists, and then reduce those candidates to a single winner:

- **eplfs** (existing path, least free space) picks the candidate with the
  least free space among those whose free space is strictly above their own
  configured reserve (`MinFreeSpace`). If there is none it fails with
  `errNoUpstreamsFound`.
- **eplno** (existing path, least number of objects) picks the candidate with
  the fewest objects. The upstream form fails with `fs.ErrorObjectNotFound`
  when nothing is chosen. The entry form never fails: it returns a nil entry
  with a nil error.

Both reductions work the same way (module `Reduction`). First the slice is
shuffled in place with `rand.Shuffle` (module `Shuffling`). Then it is scanned
with a running minimum that starts at `math.MaxInt64`, and the best candidate is
replaced only on a strict improvement. Among equal values, the first one in the
shuffled order therefore wins. A failed metric query is only logged: the value
the getter returned is compared as it is. Each policy has six dispatch
operations: Action, Create and Search, each over upstreams and over entries.

Files:
- `outcomes.dfy`: Go's nil-able values (`Option`), `(value, err)` pairs (`Reply`) and the errors.
- `shuffle.dfy`: `rand.Shuffle` as a Fisher-Yates shuffle over an array, with the random draws as a parameter.
- `upstream.dfy`: the `int64` type, upstream handles, entries, and the `EpAll` filter's contract.
- `reduction.dfy`: the shared scan (specification `ScanOf`, method `ScanLeast`) and its lemmas.
- `eplfs.dfy`, `eplno.dfy`: the two policies, their dispatchers and their properties.

How things are represented:
- An upstream is a value that records what each capacity getter returned and
  whether it also returned an error (`freeSpaceFailed`, `numObjectsFailed`),
  plus its `minFreeSpace`. The source compares the returned value whatever the
  error. The model does the same and fixes no fallback value.
- Randomness is a parameter. `draws[i]` is the position `rand.Shuffle` draws
  at step i, in `[0, i]`, and the steps run from the last index down to 1.
  Every statement holds for all admissible draws.
- `EpAll` is not part of this model. It is passed in as a function, and the
  only requirement on it is the one its callers rely on: a successful result
  is a sub-multiset of its input.
- The log lines for failed queries say "treating as 0" (object count) and
  "treating as infinite" (free space). The code does not substitute either
  value: it compares whatever the getter returned, and so does the model.
- `SearchEntries` does not call the filter: it hands the caller's entries
  straight to the reduction once it has checked that there are some.
- `SearchEntries` passes the caller's own slice to `lfsEntries`/`lnoEntries`,
  which shuffle it in place, so the model's `SearchEntries` modifies the
  caller's array. For the other dispatchers, the filter's result is copied
  into a fresh array before it is shuffled.

## Model

| member | source | states |
|---|---|---|
| `Shuffling.Shuffle` | backend/union/policy/eplfs.go:29-31 | the array afterwards is the shuffle of its old contents for the given draws, and its multiset is unchanged |
| `Shuffling.ShuffledIsPermutation` | backend/union/policy/eplno.go:26-28 | shuffling keeps the length and the multiset, so every element of the result comes from the input |
| `Shuffling.ShuffledAt` | backend/union/policy/eplfs.go:55-57 | the shuffle moves elements by position only: the element at k comes from a position fixed by the draws alone |
| `Shuffling.ShuffledLead` | backend/union/policy/eplno.go:52-54 | for every position k some admissible draws bring element k to the front, swapping only positions 0 and k |
| `Reduction.ScanOf` | backend/union/policy/eplfs.go:33-45 | the loop's running state: the minimum is MaxInt64 while nothing is recorded, and otherwise it equals the recorded position's metric |
| `Reduction.ScanLeast` | backend/union/policy/eplno.go:30-42 | the scan loop returns exactly the candidate at the position the specification records, or nil |
| `Reduction.ScanFindsFirstLeast` | backend/union/policy/eplfs.go:41-44 | nothing is recorded exactly when no candidate is eligible and below MaxInt64; otherwise the recorded one is least among eligible ones and strictly below every eligible one before it |
| `Reduction.ScanPicksExactlyFirstLeast` | backend/union/policy/eplno.go:38-41 | both directions: the scan records position w if and only if w is the first least candidate |
| `Reduction.ScanSeesOnlyReadings` | backend/union/policy/eplfs.go:36-41 | two inputs with the same metric and eligibility at every position produce the same scan state |
| `Reduction.WinnerOfShuffled` | backend/union/policy/eplfs.go:29-45 | whatever the draws, the result is nil exactly when the input has no candidate, and otherwise a least candidate of the original input |
| `Reduction.EveryLeastCanWin` | backend/union/policy/eplno.go:26-41 | every least candidate wins under some admissible draws |
| `EpLfs.Lfs` | backend/union/policy/eplfs.go:26-50 | shuffles the slice in place and returns the reply the specification gives for the old contents and the draws |
| `EpLfs.LfsEntries` | backend/union/policy/eplfs.go:52-77 | the same for entries, measured through the entry's upstream |
| `EpLfs.LfsFailsExactlyWhenNoneSpare` | backend/union/policy/eplfs.go:33-48 | lfs returns nil and errNoUpstreamsFound exactly when no upstream has MinFreeSpace < space < MaxInt64 (empty input included); otherwise it returns an upstream and a nil error |
| `EpLfs.LfsPicksLeastAboveReserve` | backend/union/policy/eplfs.go:41-44 | the winner is an input upstream, is strictly above its own reserve, and has no more free space than any input upstream above its reserve |
| `EpLfs.LfsTieKeepsFirst` | backend/union/policy/eplfs.go:41 | the winner is the first upstream in shuffled order with the least spare space: every upstream before it that is above its reserve has strictly more space |
| `EpLfs.LfsIgnoresQueryErrors` | backend/union/policy/eplfs.go:36-41 | inputs that differ only in whether free-space queries failed give the same scan state and the same error |
| `EpLfs.LfsEveryTiedCanWin` | backend/union/policy/eplfs.go:29-44 | each upstream tied for the least spare space is returned under some draws |
| `EpLfs.LfsEntriesFailsExactlyWhenNoneSpare` | backend/union/policy/eplfs.go:59-75 | lfsEntries returns nil and errNoUpstreamsFound exactly when no entry's upstream is spare |
| `EpLfs.LfsEntriesPicksLeastAboveReserve` | backend/union/policy/eplfs.go:61-71 | the entry returned is an input entry whose upstream is above its reserve and has the least such free space |
| `EpLfs.Action` | backend/union/policy/eplfs.go:80-87 | a filter error comes back unchanged with a nil list; otherwise a one-element list with lfs's result and error; on success the upstream is an input upstream above its reserve |
| `EpLfs.ActionEntries` | backend/union/policy/eplfs.go:90-97 | the same over entries with lfsEntries |
| `EpLfs.Create` | backend/union/policy/eplfs.go:100-107 | as Action, with the filter's Create entry point |
| `EpLfs.CreateEntries` | backend/union/policy/eplfs.go:110-117 | as ActionEntries, with the filter's CreateEntries entry point |
| `EpLfs.Search` | backend/union/policy/eplfs.go:120-129 | empty input gives ErrorObjectNotFound whatever the filter would say; otherwise a filter error is returned unchanged, or lfs's reply, with no list |
| `EpLfs.SearchEntries` | backend/union/policy/eplfs.go:132-137 | empty input gives ErrorObjectNotFound; otherwise the caller's slice is shuffled and lfsEntries's reply returned, with no filter |
| `EpLfs.LeastFreeSpaceWins` | backend/union/policy/eplfs.go:33-49 | free space 100, 50, 200 and no reserve: B for every shuffle |
| `EpLfs.ReserveExcludesSmallerUpstream` | backend/union/policy/eplfs.go:41 | A (10 free, reserve 20) is ineligible, so B (5 free, no reserve) wins for every shuffle |
| `EpLfs.AllUnderReserveFails` | backend/union/policy/eplfs.go:46-48 | both upstreams at or under their reserve: errNoUpstreamsFound for every shuffle |
| `EpLno.Lno` | backend/union/policy/eplno.go:23-47 | shuffles the slice in place and returns the reply the specification gives for the old contents and the draws |
| `EpLno.LnoEntries` | backend/union/policy/eplno.go:49-70 | the same for entries; the error is always nil |
| `EpLno.LnoFailsExactlyWhenAllAtMax` | backend/union/policy/eplno.go:30-46 | lno returns nil and ErrorObjectNotFound exactly when every count equals MaxInt64 (empty input included); otherwise an upstream and a nil error |
| `EpLno.LnoPicksFewestObjects` | backend/union/policy/eplno.go:38-41 | the winner is an input upstream whose count is at most every input upstream's count |
| `EpLno.LnoTieKeepsFirst` | backend/union/policy/eplno.go:38 | the winner is the first upstream in shuffled order with the fewest objects: every upstream before it has strictly more |
| `EpLno.LnoIgnoresQueryErrors` | backend/union/policy/eplno.go:33-41 | inputs that differ only in whether count queries failed give the same scan state and the same error |
| `EpLno.LnoEveryTiedCanWin` | backend/union/policy/eplno.go:26-41 | each upstream tied for the fewest objects, below MaxInt64, is returned under some draws |
| `EpLno.LnoEntriesNeverFails` | backend/union/policy/eplno.go:56-69 | lnoEntries's error is always nil; its entry is nil exactly when every count is MaxInt64 (empty input included), and otherwise an input entry with the fewest objects |
| `EpLno.Action` | backend/union/policy/eplno.go:73-80 | a filter error comes back unchanged with a nil list; otherwise a one-element list with lno's result and error; on success the upstream is an input upstream |
| `EpLno.ActionEntries` | backend/union/policy/eplno.go:83-90 | a filter error comes back unchanged; otherwise a one-element list and a nil error, the element being nil when lnoEntries finds nothing |
| `EpLno.Create` | backend/union/policy/eplno.go:93-100 | as Action, with the filter's Create entry point |
| `EpLno.CreateEntries` | backend/union/policy/eplno.go:103-110 | as ActionEntries, with the filter's CreateEntries entry point |
| `EpLno.Search` | backend/union/policy/eplno.go:113-122 | empty input gives ErrorObjectNotFound whatever the filter would say; otherwise a filter error is returned unchanged, or lno's reply |
| `EpLno.SearchEntries` | backend/union/policy/eplno.go:125-130 | empty input gives ErrorObjectNotFound; otherwise the caller's slice is shuffled and lnoEntries's reply returned, with no filter |
| `EpLno.TiedFewestObjectsShareTheWin` | backend/union/policy/eplno.go:23-46 | counts 5, 5, 9: A or B for every shuffle, never C, and each of A and B under some shuffle |

## Left out

- `init` and `registerPolicy`: registering the policy in the global registry by name is a start-up side effect outside the selection logic.
- `EpAll` (the existing-path filter and its Action/Create/epall entry points) is not part of this model: it does I/O against the backends. It enters as a function parameter whose successful results are sub-multisets of its input. Whether its result slice aliases the caller's is not modelled; the dispatchers copy it into a fresh array.
- `GetFreeSpace` and `GetNumObjects` (caching, timing, backend calls) are not modelled: each upstream records the value returned and an error flag.
- `rand` as a random source: the draws are a parameter, so the model proves properties for every shuffle. Uniformity of tie-breaking is a statistical property and is not stated. What is proved instead is that every tied candidate wins under some draws.
- `fs.LogPrintf` logging of failed queries, and `context.Context` cancellation, are left out.
- Pointer identity of `*upstream.Fs` is not modelled: upstreams are values, and two upstreams with identical fields are the same value.
- A Go nil slice is modelled as the empty sequence.
- Go's `rand.Shuffle` switches from 63-bit to 31-bit draws for small indices. That changes how a draw is produced, not its range, so the model does not distinguish the two.
