# Go linear containers, modelled and verified in Dafny

This project models the two generic containers of the `List` package:

- **Singly linked list** (`List/list_link_sing.go`). A head record `SinHead` keeps a count `len` and a pointer `Next` to the first `SinNode`. Positions are 1-based. `Append` walks to the last node and links the new one there. `Insert(node, i)` splices a node in after position `i`, where `i = 0` means "make it the first node". `Delete(i)` unlinks position `i`. In the model, each pointer update these two make is a helper method with its own contract: `PushFront` and `LinkAfter` for `Insert`, `RemoveFirst` and `UnlinkAfter` for `Delete`. `Insert` and `Delete` keep the index checks and the walks. `GetElem(i)` walks to position `i` and returns that node.
- **Sequential list** (`List/list_seq.go`). `SeqList` keeps `Cap`, `Len` and a slice `Data`, and uses the constant `DefaultCap = 10`. `Append` doubles `Cap` when the list is full. `Remove(i)` shifts the tail left and zeroes the vacated slot. `Get(i)` is a bounds-checked read. `Locate` returns the first match under a caller's comparator. `Clear(ifBack)` empties the list and either keeps `Cap` or resets it to `DefaultCap`.

Files:

- `sin_list.dfy` (module `LinkedList`): the classes `SinNode` and `SinHead`.
  - `SinHead` carries ghost fields `Nodes` (the chain, in order) and `Contents` (the values in the nodes).
  - `Valid()` says the following: `len == |Nodes|`; `Next` is the first node, or null when the list is empty; each node's `Next` is the node after it; the last node's `Next` is null; no node occurs twice; and node `k` holds `Contents[k]`.
  - Every mutating method keeps `Valid()`. Its postcondition states the new `Nodes`, `Contents` and `len` in terms of the old ones.
  - Go's `error` results become `Outcome`: `Pass` stands for `nil`, and `Fail(...)` carries one of the source's three messages.
- `seq_list.dfy` (module `SequentialList`): the class `SeqList` and `DefaultCap`.
  - `Data` is a `seq` field that holds the slice as Go sees it, i.e. its visible length.
  - `zero` is Go's zero value of `T`, fixed when the list is constructed.
  - `Elements()` is the live prefix `Data[..Len]`.
  - `Valid()` is `0 < Cap`, `0 <= Len <= Cap` and `Len <= |Data|`. `|Data| <= Cap` is not kept: `Remove` never shortens the slice, so a later `Append` can push it past `Cap`.
  - The module also gives a closed form for the capacity after `k` appends: `CapAfter` computes it step by step, and `LeastDoublings` is an independent definition of the least number of doublings.
- `sin_list_scenarios.dfy` and `seq_list_scenarios.dfy`: clients that replay the package's test scenarios (`List/list_link_sing_test.go`, `List/list_seq_test.go`) and combine operations. They use only the contracts.

Three facts about the code shape the model:

- The comment at `List/list_seq.go:30` says `Append` adds an element to the end of the list, and the growth branch (`List/list_seq.go:40-42`) keeps only the live prefix before appending. The other path appends to the end of the slice as it stands. Once a `Remove` has left slots past `Len`, that is not the end of the list (see Findings).
- The visible slice need not have length `Len`. Each `Remove` leaves one more slot past `Len`, and only two things cut it back: the growth branch of `Append` copies the live prefix into a new slice, and `Clear` replaces the slice with an empty one.
- `SinHead.Delete` tests for an empty list (`List/list_link_sing.go:80-82`) only after the index test, which an empty list always fails. So the "no data to delete" error is never returned. `SinHead.Delete` proves this with `assert len != 0` at that point.

## Model

| member | source | states |
|---|---|---|
| `LinkedList.SinNode.constructor` | List/list_link_sing.go:30-35 | a new node holds the given value and has no successor |
| `LinkedList.SinHead.constructor` | List/list_link_sing.go:15-20 | a new list is valid, empty, has count 0 and no first node |
| `LinkedList.SinHead.Len` | List/list_link_sing.go:22-24 | the stored count equals the number of values in the list |
| `LinkedList.SinHead.Append` | List/list_link_sing.go:37-51 | for a detached node not already in the list: the chain keeps its invariant, the node becomes the last one, the values become old values + [v], and the count grows by one |
| `LinkedList.SinHead.Insert` | List/list_link_sing.go:53-73 | `i > len` gives "index out of range" and changes nothing, neither the list nor the node passed in; for `0 <= i <= len` the node lands at position `i + 1`, the values become `old[..i] + [v] + old[i..]`, the count grows by one, and the chain stays acyclic, null-terminated and counted |
| `LinkedList.SinHead.Delete` | List/list_link_sing.go:75-98 | `i <= 0` or `i > len` gives "invalid index" and changes nothing; otherwise the values become `old[..i-1] + old[i..]`, the count drops by one, the chain invariant is kept, and the unlinked node keeps its own `Next`; the "no data to delete" error is never returned |
| `LinkedList.SinHead.PushFront` | List/list_link_sing.go:59-63 | the node takes over the head's link and becomes the first node; the values become [v] + old values, the count grows by one, and the chain invariant is kept |
| `LinkedList.SinHead.LinkAfter` | List/list_link_sing.go:69-71 | given the node `tar` at position `i`, the new node is linked in behind it and lands at position `i + 1`; the values become `old[..i] + [v] + old[i..]`, the count grows by one, and the chain invariant is kept |
| `LinkedList.SinHead.RemoveFirst` | List/list_link_sing.go:84-87 | on a non-empty list the head is pointed at the second node; the values lose their first element, the count drops by one, and the chain invariant is kept |
| `LinkedList.SinHead.UnlinkAfter` | List/list_link_sing.go:95-96 | given the nodes `prev` and `tar` at positions `i - 1` and `i` (`i >= 2`), pointing `prev` past `tar` removes position `i`: the values become `old[..i-1] + old[i..]`, the count drops by one, and the chain invariant is kept |
| `LinkedList.SinHead.GetElem` | List/list_link_sing.go:100-110 | fails with "invalid index" and returns null exactly when `i <= 0` or `i > len`; otherwise returns node `i`, whose `Value()` is `Contents[i-1]`; changes nothing |
| `LinkedList.DeleteUndoesInsert` | List/list_link_sing.go:54-98 | deleting position `i + 1` removes exactly what inserting after position `i` added |
| `LinkedListScenarios.InsertThenDelete` | List/list_link_sing.go:54-98 | on a real list, `Insert(node, i)` followed by `Delete(i + 1)` restores the values |
| `LinkedListScenarios.AppendAll` | List/list_link_sing_test.go:16-30 | appending detached nodes with values `vs` to a new list gives a valid list holding `vs` with `Len() == |vs|`, so `GetElem(k)` yields `vs[k-1]` |
| `LinkedListScenarios.AppendScenario` | List/list_link_sing_test.go:16-30 | after appending 10, 20, 30 the length is 3 and position 3 holds 30 |
| `LinkedListScenarios.InsertScenario` | List/list_link_sing_test.go:33-52 | inserting 99 after position 2 of 1, 2, 3 succeeds, puts 99 at position 3, and gives length 4 |
| `LinkedListScenarios.DeleteScenario` | List/list_link_sing_test.go:55-74 | deleting position 2 of 1, 2, 3 succeeds, moves 3 to position 2, and gives length 2 |
| `LinkedListScenarios.DeletedNodeScenario` | List/list_link_sing.go:84-97 | after `Delete(2)` on a list of 1, 2, the unlinked node still has a null `Next`, so appending it again succeeds: position 2 holds 2 and the length is 2 |
| `LinkedListScenarios.OutOfRangeScenario` | List/list_link_sing_test.go:77-85 | position 5 of a one-node list gives null and "invalid index"; on an empty list `Delete(1)` gives "invalid index" and `Insert(_, 1)` gives "index out of range" |
| `LinkedListScenarios.RefusedNodeScenario` | List/list_link_sing.go:54-57 | a node that `Insert` refused with "index out of range" is left detached, so appending it to the empty list succeeds: position 1 then holds its value and the length is 1 |
| `SequentialList.SeqList.constructor` | List/list_seq.go:19-28 | for `cap > 0`: `Cap == cap`, `Len == 0`, the slice is empty, and the list is valid |
| `SequentialList.SeqList.Append` | List/list_seq.go:31-47 | `Cap` doubles exactly when `Len == Cap` and is unchanged otherwise; `Len` grows by one; the slice becomes (the live prefix if the list grew, else the old slice) + [v]; the live elements keep their prefix and gain `v` when the slice had no slack or the list grew, otherwise they gain the stale slot `old Data[Len]` |
| `SequentialList.SeqList.AppendAtLen` | List/list_seq.go:31-47 | corrected append: same capacity rule; the live elements always become old + [v], the slice equals them, and `Get(old Len)` is `(v, true)` |
| `SequentialList.SeqList.Remove` | List/list_seq.go:50-67 | `i` outside `0..Len-1` returns `(zero, false)` and changes nothing; otherwise it returns `(old element i, true)`, the live elements lose index `i`, the slice becomes `old[..i] + old[i+1..Len] + [zero] + old[Len..]`, `Len` drops by one, and `Cap` and the slice length stay the same |
| `SequentialList.SeqList.Get` | List/list_seq.go:69-77 | the flag is true exactly when `0 <= i < Len`; then the value is live element `i`, otherwise it is `zero`; reads only |
| `SequentialList.SeqList.Locate` | List/list_seq.go:80-87 | on success the index is the smallest live index whose element matches (element first, target second); otherwise `(-1, false)` and no live element matches |
| `SequentialList.SeqList.Clear` | List/list_seq.go:89-99 | `Len == 0`, the slice is empty, `Cap` becomes `DefaultCap` (10) when `ifBack` is set and stays the same otherwise, and every `Get` right after it fails |
| `SequentialList.CapAfterIsLeastCover` | List/list_seq.go:33-46 | after `k` appends to a new list of capacity `c`, `Cap` is `c * 2^m` for the least `m` with `c * 2^m >= k` |
| `SequentialList.LeastDoublingsIsLeast` | List/list_seq.go:33-46 | `c` doubled `LeastDoublings(c, k)` times reaches `k`, and one doubling fewer does not |
| `SequentialList.LeastDoublingsUnique` | List/list_seq.go:33-46 | any number of doublings that reaches `k` while one fewer does not equals `LeastDoublings(c, k)` |
| `SequentialListScenarios.AppendAll` | List/list_seq_test.go:48-67 | appending `vs` to a new list of capacity `c` leaves the slice equal to `vs` and `Cap == CapAfter(c, |vs|) == c * 2^LeastDoublings(c, |vs|)` |
| `SequentialListScenarios.GrowthScenario` | List/list_seq_test.go:48-67 | with capacity 2, `Cap` is 2 after two appends, 4 after the third and 8 after the fifth, and the slice is a, b, c, d, e |
| `SequentialListScenarios.RemoveScenario` | List/list_seq_test.go:98-108 | removing index 1 of 10, 20, 30, 40 returns 20 and leaves the slice 10, 30, 40, 0 with `Len` 3 and `Cap` 4 |
| `SequentialListScenarios.RemoveBoundaryScenario` | List/list_seq_test.go:110-125 | removing index 0 of 10, 20, 30, 40 returns `(10, true)` and leaves 20, 30, 40, 0; removing index 3 returns `(40, true)` and leaves 10, 20, 30, 0 |
| `SequentialListScenarios.RemoveOutOfRangeScenario` | List/list_seq_test.go:127-142 | on 10, 20, 30, 40, `Remove(-1)` and then `Remove(4)` each return `(0, false)`, and `Len` is still 4 after each |
| `SequentialListScenarios.AppendAfterRemove` | List/list_seq.go:45 | as written: after 10, 20, `Remove(0)` and `Append(30)`, `Get(1)` is `(0, true)` and `Locate(30)` fails |
| `SequentialListScenarios.AppendAtLenAfterRemove` | List/list_seq.go:45 | corrected: the same steps give `Get(1) == (30, true)` and `Locate(30) == (1, true)` |
| `SequentialListScenarios.LocateScenario` | List/list_seq_test.go:208-239 | the first of two equal elements is found at index 1; an absent value gives `(-1, false)` |
| `SequentialListScenarios.ClearScenario` | List/list_seq_test.go:284-326 | `Clear(false)` keeps the grown capacity 8, a following append gives the slice [100], and `Clear(true)` resets `Cap` to `DefaultCap` |
| `SequentialListScenarios.IntegrationScenario` | List/list_seq_test.go:330-367 | Append, Remove, Get, Locate, Clear and Append on one list give `("c", true)`, index 0, capacity 3 and the slice x, y |

`SinNode.Value` (List/list_link_sing.go:26-28) is an accessor without a contract of its own. `GetElem`'s postcondition uses it.

## Left out

- Go's hidden slice capacity `cap(Data)` and the reallocation done inside the builtin `append` are runtime behaviour. Only the `Cap` field and the visible slice are modelled.
- The `log.Println` call in `Remove` is I/O with no effect on the list's state.
- The panic of `NewSeqList` for `cap <= 0` is a precondition of the constructor, `cap > 0`, not a modelled panic.
- `Locate` with a nil comparator panics in Go. Here the comparator is a total function value, so that case does not arise.
- `SinHead.Insert` requires `i >= 0`. For a negative `i` the source skips the walk and links the node after the first node, or dereferences nil on an empty list.
- `SinHead.Append` requires a detached node (`Next == null`) not already in the list, because the source never clears the node's `Next`. `SinHead.Insert` likewise requires a node not already in the list.
- The node parameters of `SinHead.Append` and `SinHead.Insert` are non-null, so a nil node is not modelled. In Go, `Append(nil)` on an empty list sets `len` to 1 and leaves `Next` nil (`List/list_link_sing.go:38-40`), which breaks the count; `Insert(nil, i)` dereferences nil at `List/list_link_sing.go:60` or `:69`.
- Go's fixed-width `int` is not modelled. `Cap += Cap` and the counters are unbounded here, so wrap-around on overflow is not captured.
- Unlinked nodes stay allocated in the model. In Go they are garbage-collected. Callers that mutate a node returned by `GetElem` are outside the container's contract.
- A Go slice can share its backing array with older slices. The model treats `Data` as a value, which the containers' own operations cannot observe.

## Findings

| source | as written | input that shows it | evidently intended | confidence | as-written member | corrected member |
|---|---|---|---|---|---|---|
| List/list_seq.go:45 | `Append` appends `v` to the end of the slice. After a `Remove` the slice has a slot past `Len`, so `v` lands behind the zeroed slot, and the last live element reads as zero. | `NewSeqList(4)`; `Append(10)`; `Append(20)`; `Remove(0)`; `Append(30)`; then `Get(1)` is `(0, true)` and `Locate(30)` fails | `v` is stored at index `Len`, as the growth branch does after truncating to the live prefix | high; not executed | `SequentialListScenarios.AppendAfterRemove` | `SequentialList.SeqList.AppendAtLen` |

`SeqList.Append` keeps the behaviour as written, because that is what `List/list_seq.go:45` does. On every input where the slice has no slots past `Len` it agrees with `AppendAtLen`; this covers all the package's test scenarios, since none appends after a `Remove` without a `Clear` in between. Its postcondition says exactly when the two differ.
