# The "look" I/O elevator, modelled in Dafny

This project models the "look" elevator of a Linux block layer
(`block/look-iosched.c`). For each request queue it keeps a `look_data`
record: a linked list of pending requests and a `last_serviced` sector
cursor. The block layer calls its hooks:

- `look_init_queue` allocates the record. The list starts empty and the cursor at 0.
- `look_add_request` pushes a request on the front of the list. It then stable-sorts the list by start sector with the comparator `rq_cmp`.
- `look_merge` offers the first queued request whose start sector equals a bio's end sector for a front merge.
- `look_merged_requests` unlinks a request that the block layer merged into another.
- `look_dispatch` removes a request, hands it to the block layer and moves the cursor.
- `look_exit_queue` frees the record, which BUG_ON requires to have an empty list.

The model follows the code as written:

- **Dispatch takes the list head.** The scan in `look_dispatch` assigns a
  second `rq` declared inside the loop body. So the request removed is always
  the head of the list. On a sorted list that is the lowest sector. The scan
  only sets the new cursor:
  - Let i be the first index whose sector exceeds the cursor.
  - If i > 0 (which includes "no entry exceeds it"), the cursor becomes the
    sector of entry i-1.
  - If i = 0, the step back lands on the list-head sentinel, and the "sector"
    read there is whatever memory holds. The model takes that value as the
    parameter `sentinelRead` of `Dispatch`.
- **The comparator truncates.** `rq_cmp` returns a 64-bit unsigned difference
  of sectors, converted to a 32-bit `int`. `RqCmp` writes out both the wrap
  and the truncation. The list is guaranteed to be ordered by sector when all start
  sectors lie in a range narrower than 2^31 (`Within`). `RqCmpMisordersFarSectors`
  shows that for two requests exactly 2^31 sectors apart the higher one
  compares below the lower one (both comparisons give -2^31), and that the
  sort leaves them out of order when the higher one is at the head.
- **The storage is a list, not a search tree.** There is no shortest-seek-first
  mode and no wrap-around sweep. The cursor is not, in general, set to the
  dispatched request's sector. A textbook LOOK elevator does these things;
  this code does none of them, and the model follows the code.

Three modules:

- **`Requests`** holds request values (`id` for the record's identity,
  `sector` < 2^64). It also holds the value-level operations with their
  lemmas: the comparator, the stable sort that `list_sort` performs with it,
  the cursor scan, and removal by identity.
- **`LookIosched`** holds class `LookData`, with fields `queue`, `lastServiced`
  and a ghost `dispatched` sequence. `dispatched` records what each
  `elv_dispatch_sort` hand-off passed to the block layer. The class has one
  method per hook.
- **`Host`** states what repeated dispatching (the block layer's drain loop)
  yields.

## Model

| member | source | states |
|---|---|---|
| `Requests.RqCmp` | block/look-iosched.c:72-81 | the result lies in the 32-bit int range [-2^31, 2^31) (u64 wrap, then truncation to int) |
| `Requests.RqCmpCongruent` | block/look-iosched.c:80 | the result is congruent modulo 2^32 to the true difference of the start sectors |
| `Requests.RqCmpExact` | block/look-iosched.c:80 | when the sectors are less than 2^31 apart, rq_cmp equals their difference, so `<= 0` exactly when the first sector is not above the second |
| `Requests.RqCmpMisordersFarSectors` | block/look-iosched.c:80 | for any two requests whose sectors differ by exactly 2^31, each compares below the other (both give -2^31), and sorting the list with the higher one first leaves it out of order |
| `Requests.Insert` | block/look-iosched.c:94-95 | inserting during the stable sort adds exactly the one element (multiset) |
| `Requests.ListSort` | block/look-iosched.c:95 | list_sort by rq_cmp returns a permutation of its input |
| `Requests.InsertSorted` | block/look-iosched.c:95 | inserting into a sorted list, with all sectors inside a 2^31 window, keeps it sorted |
| `Requests.ListSortSorted` | block/look-iosched.c:95 | with all sectors inside a 2^31 window, the sorted list is nondecreasing by sector |
| `Requests.ListSortKeepsSorted` | block/look-iosched.c:95 | a list already in sector order (inside a 2^31 window) is left unchanged by the sort |
| `Requests.InsertIntoSorted` | block/look-iosched.c:94-95 | on a sorted list, when the pushed request and all entries lie in a 2^31 window, the pushed request lands just before the first entry whose sector is not below its own, so it goes ahead of queued requests at the same sector |
| `Requests.ListSortDistinct` | block/look-iosched.c:94-95 | sorting never duplicates a request record |
| `Requests.FirstAbove` | block/look-iosched.c:47-52 | the scan stops at the first entry whose sector exceeds the cursor: all earlier entries are at or below it |
| `Requests.FirstAtOrAbove` | block/look-iosched.c:94-95 | index of the first entry whose sector is not below a given sector; all earlier ones are below it |
| `Requests.CursorIsHighestNotBeyond` | block/look-iosched.c:47-65 | on a sorted queue whose head does not exceed the cursor, the new cursor is the highest queued sector not beyond the old cursor |
| `Requests.RemoveId` | block/look-iosched.c:168 | unlinking a listed record shortens the list by one; an unlisted record leaves its length unchanged |
| `Requests.IndexOfId` | block/look-iosched.c:168 | position of a request record in the list, with `|s|` exactly when it is not listed |
| `Requests.RemoveIdExact` | block/look-iosched.c:168 | unlinking `next` drops exactly that record and keeps every other entry in order; an unlisted record leaves the list unchanged |
| `LookIosched.MergeDecision.Code` | block/look-iosched.c:152-159 | the hook's return code is ELEVATOR_NO_MERGE (0) exactly for no merge, otherwise ELEVATOR_FRONT_MERGE (1) |
| `LookIosched.LookData.constructor` | block/look-iosched.c:120-127 | the new elevator data has an empty list and cursor 0 |
| `LookIosched.LookData.InitQueue` | block/look-iosched.c:99-129 | returns 0 with fresh, empty data and cursor 0 exactly when both allocations succeed; otherwise -ENOMEM and no data |
| `LookIosched.LookData.Dispatch` | block/look-iosched.c:30-69 | empty list: returns 0 and changes nothing; otherwise returns 1, removes and hands on the head (the lowest sector if sorted), keeps the rest in order, and sets the cursor to the sector of the entry before the first one beyond the old cursor, or to the sentinel read when that is the head |
| `LookIosched.LookData.AddRequest` | block/look-iosched.c:85-96 | the new list is a permutation of the old list plus `rq`; it is sorted when all sectors lie in a 2^31 window; when the old list is sorted and all sectors lie in a 2^31 window, `rq` goes in front of the first entry not below it; the cursor is unchanged |
| `LookIosched.LookData.Merge` | block/look-iosched.c:131-160 | front merge with the first queued request whose sector equals the bio's end sector; no merge exactly when there is none; nothing changes |
| `LookIosched.LookData.MergedRequests` | block/look-iosched.c:162-169 | removes only `next`; the other entries, their order, the cursor and the dispatched requests are unchanged |
| `LookIosched.LookData.ExitQueue` | block/look-iosched.c:171-181 | the BUG_ON fires exactly when the list is not empty |
| `Host.Drain` | block/look-iosched.c:42-66 | dispatching until 0 hands on every queued request exactly once, in list order, so a sorted list goes out in nondecreasing sector order; the list ends empty and teardown passes BUG_ON |

## Left out

- Diagnostic output: `print_list`, `printk` and the `DEBUG` blocks produce no scheduler state.
- Elevator registration: the `elevator_type` table, `elv_register`/`elv_unregister` and `module_init`/`module_exit` belong to the block layer's framework.
- Locking: the spinlock around installing the elevator in `look_init_queue`. The block layer serialises the hooks.
- Memory management: `elevator_alloc`, `kmalloc_node`, `kobject_put` and `kfree` appear only as the success flags of `InitQueue`. `InitQueue` returns the new data instead of installing it in the request queue.
- `list_sort` is modelled as the stable sort it is documented to be (`ListSort`, an insertion sort that keeps the earlier element when `rq_cmp <= 0`), not as its merge-sort internals. With a comparator that is not consistent (sectors 2^31 or more apart), the real merge sort can produce a different order from this model.
- `elv_dispatch_sort` is modelled as appending to the ghost `dispatched` sequence. Its insertion into the block layer's dispatch queue is not modelled.
- `blk_rq_pos` and `bio_end_sector` are plain sector values. `Dispatch` does not model the memory layout behind the list-head sentinel; what is read there is the parameter `sentinelRead`.
- The `force` argument of `look_dispatch`, which the code never reads. `Dispatch` has no such parameter. `MergedRequests` keeps the `rq` argument, which the code also ignores.
- A request's sector is fixed while it is queued. The block layer lowering a queued request's start sector after a front merge is not modelled. No merged-request hook re-sorts the list then.
- `MergedRequests` for a record that is listed on some other list. The model covers a record on this list, or a record on no list, which `list_del_init` leaves alone.
- `test.c` is a user-space program that reads memory statistics through custom system calls. It holds no scheduler logic.
