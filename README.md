# Intrusive circular lists and timeout conversion, modelled in Dafny

This project models two parts of a small C platform layer.

**The intrusive circular doubly-linked list** of `include/qwiet/platform/common/list.h` is a
userspace port of the Linux kernel's `list.h`. Every node is a `struct pal_list_head` with a
`next` and a `prev` pointer. A head node is the sentinel of its list, so a list is a cycle that
starts and ends at its head. The entries of a list are the nodes met from `head->next` until
the head comes round again.

- Nodes live in an arena (`IntrusiveList.Arena`): two arrays `next` and `prev` indexed by node.
  A pointer is a node index, and NULL is `-1`. The entry is the node index itself, which
  replaces `PAL_CONTAINER_OF`.
- The ghost field `layout` (a `ListLayout.Layout`) records what the links mean: for each head,
  the sequence of its entries; for each node, the head that owns it, or NULL when the node is
  free.
- `ListLinks.Realises` ties the links to the layout. Every list is a genuine cycle, with
  `n->next->prev == n` and `n->prev->next == n`, and lists are disjoint.
- Every mutator of `list.h` is a method that makes the same pointer writes, in the same order,
  as the C function. It is proved to leave links that realise `ListSpec.Op(old(layout), ...)`.
  `ListSpec.Op` is the layout-level meaning of the operation, built from four primitive changes
  of shape (detach a head, make a head, cut a run, paste a run).
- Lemmas in `ListSpec` state what each operation does to the entry sequences, such as
  "`add` at a head gives `[x] + s`", and prove the inverse pairs.
- The queries (`empty`, `is_first` and the rest) are pointer comparisons, and the traversals are loops that follow the links.

**The timeout conversions** of `platform/linux/src/time.c` are modelled as pure functions in
`Timeout`:

- `pal_timeout_to_poll_ms` turns nanoseconds into a `poll()` timeout in milliseconds, rounded
  up and clamped to `INT_MAX`, with `-1` meaning forever.
- `pal_timeout_to_abs_timespec` adds a relative timeout to a clock reading. The reading is
  given as a parameter in place of the `clock_gettime` call.

C's truncating `/` and `%`, and the 64-bit and 32-bit ranges, are written out explicitly.

Files:

| file | module | contents |
|---|---|---|
| `list_layout.dfy` | `ListLayout` | the abstract layout, the four primitive changes of shape, and the lemmas that keep a layout well shaped |
| `list_links.dfy` | `ListLinks` | what it means for `next`/`prev` to realise a layout; the pointer writes of cutting, pasting and making a head |
| `list_spec.dfy` | `ListSpec` | every list operation on layouts, and what it does to the entry sequences |
| `list_arena.dfy` | `IntrusiveList` | the `Arena` class: the C operations as pointer writes, queries and traversal loops |
| `time.dfy` | `Timeout` | `pal_timeout_to_poll_ms` and `pal_timeout_to_abs_timespec` |

## Model

| member | source | states |
|---|---|---|
| IntrusiveList.Arena.Init | include/qwiet/platform/common/list.h:46-51 | both links of x point to x, and x heads an empty list; any list x headed before is dropped, and the links still realise a well-formed layout |
| ListLinks.MakeHeadLinks | include/qwiet/platform/common/list.h:46-51 | writing x's links to itself (or to the two ends of a chain of free nodes) makes x the head of that list without disturbing any other list |
| IntrusiveList.Arena.AddBetween | include/qwiet/platform/common/list.h:59-68 | the four writes of `__pal_list_add` put the detached node x into the gap between p and n of list h |
| ListLinks.PasteLinks | include/qwiet/platform/common/list.h:59-68 | linking a chain of free nodes between the two ends of a gap keeps every list a consistent cycle, with the chain inserted at that gap |
| IntrusiveList.Arena.Add | include/qwiet/platform/common/list.h:78-82 | the detached node x is inserted right after `at`, whether `at` is a head or an entry, and the links stay consistent |
| IntrusiveList.Arena.AddTail | include/qwiet/platform/common/list.h:92-96 | the detached node x is inserted right before `at`, and the links stay consistent |
| ListSpec.AddAtHead | include/qwiet/platform/common/list.h:78-82 | add of a node x that is free or an empty list made by pal_list_init, at a head h, turns h's entries s into `[x] + s` (LIFO), drops x's own empty list and changes no other list |
| ListSpec.AddTailAtHead | include/qwiet/platform/common/list.h:92-96 | add_tail of a free node or of an empty list made by pal_list_init, at a head h, turns s into `s + [x]` (FIFO), drops x's own empty list and changes no other list |
| ListSpec.AddPlacement | include/qwiet/platform/common/list.h:78-82 | after add of a free node or an empty list x, x sits directly after `at`, x's successor is `at`'s old successor, and the only other change is that x's own empty list is gone |
| ListSpec.AddTailPlacement | include/qwiet/platform/common/list.h:92-96 | after add_tail of a free node or an empty list x, x sits directly before `at`, x's predecessor is `at`'s old predecessor, and the only other change is that x's own empty list is gone |
| ListLinks.CutLinks | include/qwiet/platform/common/list.h:105-110 | linking the outer neighbours of a run to each other removes the run from its list; the run stays chained, and its nodes are free |
| IntrusiveList.Arena.DelEntry | include/qwiet/platform/common/list.h:112-116 | `__pal_list_del_entry` unlinks entry e from its list, or frees an empty list e whose self-links it writes back, and leaves e's own links as they were |
| IntrusiveList.Arena.Del | include/qwiet/platform/common/list.h:124-130 | e (an entry, or an empty list) leaves its list and is free, and both its links become NULL |
| IntrusiveList.Arena.DelInit | include/qwiet/platform/common/list.h:184-189 | e (an entry, or an empty list) leaves its list and becomes an empty list pointing to itself both ways |
| IntrusiveList.DelLinks | include/qwiet/platform/common/list.h:106-116 | the two writes of `__pal_list_del` realise Del both for an entry, whose neighbours are joined, and for an empty list, whose self-links are written back |
| ListSpec.DelEffect | include/qwiet/platform/common/list.h:124-130 | del removes exactly e from its list, keeps the other entries in order, frees e, and changes no other node's owner; del_init also makes e an empty list |
| ListSpec.DelShaped | include/qwiet/platform/common/list.h:112-116 | del leaves a well-formed layout in which e is free and every other node keeps its owner |
| ListSpec.DelEmptyHead | include/qwiet/platform/common/list.h:184-189 | on an empty list e, del drops e as a head and changes no other list, and del_init leaves the whole layout unchanged |
| ListSpec.DelInitTwice | include/qwiet/platform/common/list.h:184-189 | del_init leaves e an empty list, so a second del_init is allowed and changes nothing |
| ListSpec.DelAddInverse | include/qwiet/platform/common/list.h:124-130 | deleting an entry and adding it back after its old predecessor restores the layout exactly |
| ListSpec.AddDelInverse | include/qwiet/platform/common/list.h:78-82 | adding a free node and deleting it again restores the layout exactly |
| ListSpec.AddDelInitInverse | include/qwiet/platform/common/list.h:78-82 | adding a node initialised as an empty list and taking it out again with del_init restores the layout exactly |
| IntrusiveList.Arena.Replace | include/qwiet/platform/common/list.h:139-146 | the detached node y takes over x's place (an entry position, or the role of head of x's entries), and x is left free |
| ListSpec.ReplaceEntryEffect | include/qwiet/platform/common/list.h:139-146 | replacing an entry x overwrites x's position in its list with y; nothing else in that list changes |
| ListSpec.ReplaceHeadEffect | include/qwiet/platform/common/list.h:139-146 | replacing a head x makes y the head of x's entries, in order, and x heads nothing |
| ListSpec.ReplaceFacts | include/qwiet/platform/common/list.h:139-146 | replace keeps the layout well formed: x ends free, y linked, and every other node keeps its linked or free state |
| IntrusiveList.ReplaceEntryLinks | include/qwiet/platform/common/list.h:139-146 | the four writes of replace on an entry realise the replaced layout |
| IntrusiveList.ReplaceHeadLinks | include/qwiet/platform/common/list.h:139-146 | the four writes of replace on a head (empty or not) realise the replaced layout |
| IntrusiveList.Arena.ReplaceInit | include/qwiet/platform/common/list.h:155-160 | as replace, and x is left an empty list |
| IntrusiveList.Arena.Swap | include/qwiet/platform/common/list.h:168-178 | the del, replace and add steps of swap, including the `pos == entry1` case, realise `ListSpec.Swap` |
| ListSpec.SwapEffect | include/qwiet/platform/common/list.h:168-178 | swap exchanges the positions of entry1 and entry2, in one list or across two lists, and changes nothing else |
| IntrusiveList.Arena.Move | include/qwiet/platform/common/list.h:196-201 | e (an entry, or an empty list) leaves its list and is inserted right after `at` |
| IntrusiveList.Arena.MoveTail | include/qwiet/platform/common/list.h:208-213 | e (an entry, or an empty list) leaves its list and is inserted right before `at` |
| ListSpec.MoveAtHead | include/qwiet/platform/common/list.h:196-201 | move to a head h removes e from its list and makes it h's first entry |
| ListSpec.MoveTailAtHead | include/qwiet/platform/common/list.h:208-213 | move_tail to a head h removes e from its list and makes it h's last entry |
| ListSpec.MoveEmptyHead | include/qwiet/platform/common/list.h:196-213 | move and move_tail of an empty list e are add and add_tail of e |
| IntrusiveList.Arena.BulkMoveTail | include/qwiet/platform/common/list.h:224-237 | the six writes of bulk_move_tail move the run first..last, in order, to just before `at` |
| IntrusiveList.BulkMoveLinks | include/qwiet/platform/common/list.h:224-237 | the six writes realise cutting the run out and pasting it before `at`, including when `at` is the run's successor |
| ListSpec.BulkMoveTailAtHead | include/qwiet/platform/common/list.h:224-237 | bulk_move_tail to a head h takes the run out of its list and appends it, in order, to h's entries |
| IntrusiveList.Arena.IsFirst | include/qwiet/platform/common/list.h:244-249 | `prev == h` holds for a linked x exactly when x is h's first entry, or x is h itself and h is empty |
| IntrusiveList.Arena.IsLast | include/qwiet/platform/common/list.h:256-261 | `next == h` holds for a linked x exactly when x is h's last entry, or x is h itself and h is empty |
| IntrusiveList.LinksToHead | include/qwiet/platform/common/list.h:244-261 | in a consistent arena, only h's first node points back to h, and only its last node points forward to it |
| IntrusiveList.Arena.IsHead | include/qwiet/platform/common/list.h:268-273 | for a cursor at h or at an entry of h, the comparison with h is true exactly when the cursor is at no entry |
| IntrusiveList.Arena.Empty | include/qwiet/platform/common/list.h:279-283 | `head->next == head` holds exactly when the node is a head with no entries |
| IntrusiveList.SelfLinked | include/qwiet/platform/common/list.h:279-283 | a linked node points to itself exactly when it heads an empty list; no entry points to itself |
| IntrusiveList.LinkedNeighbours | include/qwiet/platform/common/list.h:104-110 | around every linked node the links agree both ways: its successor's prev and its predecessor's next lead back to it |
| IntrusiveList.Arena.RotateLeft | include/qwiet/platform/common/list.h:289-298 | rotate_left moves h's first entry to the tail, and leaves an empty list alone |
| ListSpec.RotateLeftEffect | include/qwiet/platform/common/list.h:289-298 | h's entries s become s rotated left by one place (unchanged when empty); no other list changes |
| IntrusiveList.Arena.RotateToFront | include/qwiet/platform/common/list.h:307-311 | moving the head to just before e (the eight writes of move_tail inlined) realises `ListSpec.RotateToFront` |
| IntrusiveList.RotateToFrontLinks | include/qwiet/platform/common/list.h:307-311 | the writes of move_tail(head, e) realise rotating h so that e is first, and when e is already first they leave the links unchanged |
| ListSpec.RotateToFrontEffect | include/qwiet/platform/common/list.h:307-311 | h's entries are rotated left by e's position, so e comes first and the cyclic order is kept |
| ListSpec.RotatedLeftSplit | include/qwiet/platform/common/list.h:289-311 | rotating left k times puts the first k entries, in order, behind the rest |
| IntrusiveList.Arena.IsSingular | include/qwiet/platform/common/list.h:317-321 | `!empty && next == prev` holds exactly when h has one entry |
| IntrusiveList.Arena.CutPositionAt | include/qwiet/platform/common/list.h:323-335 | the six writes of `__pal_list_cut_position` move h's entries up to and including e into `list` |
| IntrusiveList.CutPositionLinks | include/qwiet/platform/common/list.h:323-335 | those six writes realise the cut layout |
| IntrusiveList.Arena.CutPosition | include/qwiet/platform/common/list.h:350-364 | cut_position with all its cases (empty h, singular h with a foreign e, e == h, e an entry) realises `ListSpec.CutPosition` |
| ListSpec.CutPositionEffect | include/qwiet/platform/common/list.h:323-364 | for an entry e at index k, `list` receives `s[..k+1]` and h keeps `s[k+1..]`, both in order |
| ListSpec.CutPositionEdges | include/qwiet/platform/common/list.h:350-364 | an empty h, or a singular h with e neither h nor its entry, leaves everything unchanged, `list` included; e == h leaves `list` empty |
| ListSpec.CutSpliceInverse | include/qwiet/platform/common/list.h:323-421 | cutting a prefix of h into `list` and splicing `list` back at h restores h's entries |
| IntrusiveList.Arena.CutBefore | include/qwiet/platform/common/list.h:379-394 | cut_before, with its `head->next == entry` early exit, realises `ListSpec.CutBefore` |
| IntrusiveList.CutBeforeLinks | include/qwiet/platform/common/list.h:379-394 | the six writes of cut_before realise the cut layout |
| ListSpec.CutBeforeEffect | include/qwiet/platform/common/list.h:379-394 | `list` receives the entries before e (all of them when e == h), and h keeps e and what follows it, in order |
| IntrusiveList.Arena.SpliceBetween | include/qwiet/platform/common/list.h:396-409 | the four writes of `__pal_list_splice` insert src's entries, in order, into the gap between p and n |
| IntrusiveList.Arena.Splice | include/qwiet/platform/common/list.h:416-421 | a non-empty src is inserted right after `at`; an empty src changes nothing |
| IntrusiveList.Arena.SpliceTail | include/qwiet/platform/common/list.h:428-433 | a non-empty src is inserted right before `at`; an empty src changes nothing |
| IntrusiveList.Arena.SpliceInit | include/qwiet/platform/common/list.h:442-449 | as splice, and a non-empty src is left an empty list |
| IntrusiveList.Arena.SpliceTailInit | include/qwiet/platform/common/list.h:459-467 | as splice_tail, and a non-empty src is left an empty list |
| ListSpec.SpliceAtHead | include/qwiet/platform/common/list.h:416-421 | splice at a head h gives h the entries `src ++ dst`; an empty src is a no-op |
| ListSpec.SpliceTailAtHead | include/qwiet/platform/common/list.h:428-433 | splice_tail at a head h gives h the entries `dst ++ src`; an empty src is a no-op |
| ListSpec.SpliceInitAtHead | include/qwiet/platform/common/list.h:442-449 | splice_init at a head gives `src ++ dst` and leaves src empty |
| ListSpec.SpliceTailInitAtHead | include/qwiet/platform/common/list.h:459-467 | splice_tail_init at a head gives `dst ++ src` and leaves src empty |
| IntrusiveList.Arena.FirstEntryOrNull | include/qwiet/platform/common/list.h:507-512 | NULL for an empty list, otherwise the first entry |
| IntrusiveList.Arena.LastEntryOrNull | include/qwiet/platform/common/list.h:522-527 | NULL for an empty list, otherwise the last entry |
| IntrusiveList.Arena.Walk | include/qwiet/platform/common/list.h:578-589 | following next links from gap k until the head comes back visits exactly the entries from k on, in order |
| IntrusiveList.Arena.ForEach | include/qwiet/platform/common/list.h:578-579 | the cursor visits exactly h's entries, first to last, and the loop ends |
| IntrusiveList.Arena.ForEachContinue | include/qwiet/platform/common/list.h:588-589 | from a cursor at an entry, the entries after it are visited in order; from h, all of them |
| IntrusiveList.Arena.ForEachPrev | include/qwiet/platform/common/list.h:596-597 | the cursor visits exactly h's entries, last to first |
| IntrusiveList.Arena.DelEach | include/qwiet/platform/common/list.h:605-607 | safe iteration that deletes each visited entry ends with h empty and every old entry free; no other list changes |
| IntrusiveList.Arena.DelEachPrev | include/qwiet/platform/common/list.h:616-618 | the backward safe iteration that deletes each visited entry ends the same way |
| ListSpec.DelFront | include/qwiet/platform/common/list.h:605-607 | with the first i entries deleted, entry i is the first one left, and deleting it leaves the first i + 1 deleted |
| ListSpec.DelBack | include/qwiet/platform/common/list.h:616-618 | with the entries from i on deleted, entry i - 1 is the last one left, and deleting it leaves the entries from i - 1 on deleted |
| IntrusiveList.Arena.CountNodes | include/qwiet/platform/common/list.h:624-633 | the count is the number of entries of h |
| Timeout.CDiv | platform/linux/src/time.c:13 | C division truncates toward zero: the quotient brackets the dividend from below for a non-negative dividend, and from above for a negative one |
| Timeout.CMod | platform/linux/src/time.c:33 | the C remainder completes the division and takes the dividend's sign |
| Timeout.PollMs | platform/linux/src/time.c:4-20 | -1 exactly for a forever timeout; 0 exactly for 0 ns; otherwise between 1 and `INT_MAX`, the rounded-up number of milliseconds, or `INT_MAX` only when the rounded-up value reaches it |
| Timeout.PollMsAsWritten | platform/linux/src/time.c:4-20 | the code as written agrees with `PollMs` wherever `t.ns + 999999` does not overflow |
| Timeout.PollMsAsWrittenOverflows | platform/linux/src/time.c:13-18 | for `t.ns == INT64_MAX` the code as written returns -2077252341, not `INT_MAX` |
| Timeout.RoundUpAgrees | platform/linux/src/time.c:13 | below the overflow, `(ns + 999999) / 1000000` equals `(ns - 1) / 1000000 + 1` |
| Timeout.PollMsMonotone | platform/linux/src/time.c:11-19 | a longer non-negative timeout never gives a shorter poll timeout |
| Timeout.PollMsCovers | platform/linux/src/time.c:12-13 | unless clamped, the poll lasts at least the timeout and less than one millisecond more |
| Timeout.AbsTimespec | platform/linux/src/time.c:22-34 | the result names the instant t after now (seconds and nanoseconds together); from a normalised now, its nanoseconds lie in [0, 1e9) |
| Timeout.AbsTimespecIsUnique | platform/linux/src/time.c:31-33 | from a normalised now, the result is the only normalised timespec naming that instant |
| Timeout.NormalisedUnique | platform/linux/src/time.c:31-33 | two normalised timespecs that name the same instant are equal |

## Left out

- `PAL_CONTAINER_OF` and the typed `pal_list_*entry*` macros (list.h:480-810, apart from the untyped traversals and the `*_or_null` macros): they recover the enclosing record by pointer arithmetic. Here the node index is the entry, so they add nothing to the traversals that are modelled.
- `PAL_LIST_HEAD` and `PAL_LIST_HEAD_INIT` (list.h:27-37): static initialisers that give the same self-pointing state as `IntrusiveList.Arena.Init`.
- `for_each_safe` and `for_each_prev_safe` take the loop body from the caller. They are modelled with `pal_list_del` as the body (`DelEach`, `DelEachPrev`), which is the use that needs the saved successor. Other bodies are not modelled.
- Calls that break the preconditions are undefined behaviour in the C and are excluded by `requires` here. This covers adding a node that is already in a list, deleting or moving a free node, `bulk_move_tail` with `at` inside the run, and using a node after `pal_list_del` has made its links NULL. Stale links of free nodes are left unconstrained.
- IntrusiveList.Arena.DelEntry: on an empty list e the links are unchanged, but the layout records e as free with stale self-links, not as a still usable empty list. The entry points built on it (`pal_list_del`, `pal_list_del_init`, `pal_list_move`, `pal_list_move_tail`) overwrite those links or re-link e straight after, so none of them is affected.
- IntrusiveList.Arena.IsHead: states its meaning only for a cursor at h or at an entry of h, the only places a cursor over h can be.
- IntrusiveList.Arena.IsFirst: requires x to be a head or an entry. On a free node the C compares a stale or NULL link, and the answer means nothing.
- IntrusiveList.Arena.IsLast: requires x to be a head or an entry, for the same reason.
- IntrusiveList.Arena.CountNodes: the count is an unbounded `nat`, not `size_t`. It cannot exceed the arena size, so it cannot wrap.
- `pal_timeout_is_forever` is declared in `include/qwiet/platform/time.h`, which is not part of this model. It is modelled as `ns < 0`, which is how `pal_timeout_to_poll_ms` itself tests it (time.c:7).
- `clock_gettime(CLOCK_REALTIME, ...)` (time.c:29) is operating-system I/O. The reading is the parameter `now`.
- `pal_assert` (time.c:25-26) aborts the program. Its two conditions are preconditions of `Timeout.AbsTimespec`. The `out != NULL` check disappears because the result is returned, not written through a pointer.
- Timeout.AbsTimespec: requires the intermediate sums to fit in 64 bits. Overflow there is undefined behaviour, and a clock reading plus a finite timeout cannot reach it in practice. `time_t` and `long` are taken to be 64-bit, as on the Linux targets.
- `platform/linux/src/sem.c`, the eventfd and evdev wrappers, and the diode framework are not part of this model. They are thin bindings to the operating system, and they use the list only as a queue.

## Findings

| source | as written | input that shows it | evidently intended | confidence | as-written member | corrected member |
|---|---|---|---|---|---|---|
| platform/linux/src/time.c:13 | `ms = (t.ns + 999999LL) / 1000000LL` is computed in `int64_t`, so for `t.ns > INT64_MAX - 999999` the sum overflows, which is undefined behaviour. With two's-complement wrap-around, `ms` becomes a large negative number, and `(int)ms` keeps its low 32 bits. | `t.ns == INT64_MAX` gives -2077252341. A negative value is `poll()`'s "forever". | every positive timeout gives a value in [1, `INT_MAX`]: `INT_MAX` here | medium; not executed; the result assumes wrap-around and GCC's modulo conversion to `int` | Timeout.PollMsAsWritten, Timeout.PollMsAsWrittenOverflows | Timeout.PollMs |
