# mlvpn reorder buffer and logger decisions, in Dafny

mlvpn aggregates several links into one tunnel. Packets that arrive over different
links come out of order. The reorder buffer puts them back in sequence-number order
before they are delivered.

## The reorder buffer

The buffer is a circular window of `size` slots, where `size` is a power of two.
Slot `(head + k) & mask` holds the packet whose sequence number is `min_seqn + k`
(mod 2^64).

- **Insert** computes the signed wrapping offset `(int64_t)(seq - min_seqn)`.
  - It stores the packet when `0 <= offset < size`.
  - It returns -2 for a packet behind the window and -1 for a packet beyond it.
  - The first packet ever inserted fixes `min_seqn`.
- **Drain** dequeues packets from the head up to the first empty slot, handing out
  at most `max_pkts`.
- **Force-drain** goes around the window at most once, and stops as soon as
  `max_pkts` packets are out. It dequeues occupied slots and skips empty ones,
  so a lost packet cannot stall delivery forever.
- **Init**, create and reset zero the state.

The project is organised as follows:

- `machine.dfy` (module `Machine`): the C arithmetic the buffer relies on.
  - `unsigned int` and `uint64_t` wrap-around.
  - The `int64_t` reading of a `uint64_t` difference.
  - `&` against a power-of-two mask.
- `window.dfy` (module `ReorderSpec`): a value model of the buffer, the
  `Window`.
  - The slots are rotated so that entry 0 is the head slot.
  - Insert, dequeue, drain and force-drain are pure functions on it, one
    recursive call per loop iteration of the C code.
  - The lemmas about them state what the operations do to the window, and that
    they keep the slot/sequence invariant.
- `reorder.dfy` (module `Reorder`): the buffer as the C code keeps it.
  - A class `ReorderBuffer` with the struct's fields and an array of slots.
  - `head` moves around that array.
  - Each method is proved to act on `View()`, the rotated window, exactly as the
    matching `ReorderSpec` function does.
  - Module-level methods: `Init` and `Create`.
- `scenarios.dfy` (module `ReorderScenarios`): concrete runs.
  - Out-of-order packets 5, 6, 8, 7 come out as 5, 6, 7, 8.
  - A missing packet stalls `drain` but not `force_drain`.
  - The same out-of-order run on a buffer that `Create` returns, through the
    class methods.

## The logger

`log.dfy` (module `Log`) models the decisions that `src/log.c` takes before
printing:

- the 41-entry table of debug tokens that `log_accept` fills and
  `log_clear_accept` empties;
- the search `log_debug_accept_token` does in that table;
- the gates of `log_info` and `log_debug`;
- the labels `translate` gives to syslog priorities;
- the message that `fatal` and `fatalx` log.

The class `Logger` holds the file's static state: `debug`, `level`, whether a
handler is registered, and the token table.

The field `count` is not the number of occupied slots. The code increments it on
every accepted insert, even one that overwrites an occupied slot
(src/reorder.c:172), and decrements it on a dequeue only while it is positive
(src/reorder.c:138-140). The model keeps that arithmetic and claims no link
between `count` and the occupied slots.

## Model

| member | source | states |
|---|---|---|
| Machine.SignedDiffCharacterized | src/reorder.c:166 | `(int64_t)(a - b)` on `uint64_t` operands is the one value of the `int64_t` range congruent to `a - b` modulo 2^64 |
| Machine.SignedDiffAhead | src/reorder.c:158-166 | a sequence number up to 2^63 - 1 steps ahead of the floor, even one that wrapped past 2^64, gives its forward distance as the offset |
| Machine.SignedDiffBehind | src/reorder.c:166-175 | a sequence number 1 to 2^63 steps behind the floor gives a negative offset equal to minus that distance |
| Machine.SignedDiffWrapExample | src/reorder.c:158-165 | the example in the comment, widened to 64 bits: 0x10 is 0x13 after 0xFFFF_FFFF_FFFF_FFFD |
| Machine.SignedDiff | src/reorder.c:166 | the signed offset `(int64_t)(seq - min_seqn)` agrees with the mathematical difference modulo 2^64 |
| Machine.BitAnd | src/reorder.c:137 | C's `&` on non-negative integers: the result is no larger than either operand |
| Machine.MaskWraps | src/reorder.c:137-169 | for a power-of-two `size` and an index below `2 * size`, `index & (size - 1)` wraps it once around the window |
| ReorderSpec.Insert | src/reorder.c:145-181 | insert returns one of 0, -2 and -1 and marks the buffer initialised; `min_seqn` is kept once set and otherwise taken from the packet; a refused packet leaves the slots and `count` as they were |
| ReorderSpec.Skip | src/reorder.c:229-232 | moving the head past a hole changes neither `min_seqn` nor `count` |
| ReorderSpec.Drain | src/reorder.c:183-201 | drain hands out at most `max_pkts` packets, one per loop iteration |
| ReorderSpec.ForceDrainAll | src/reorder.c:203-241 | force-drain hands out at most `max_pkts` packets in at most `size` iterations, and uses all `size` iterations when it hands out fewer than `max_pkts` |
| ReorderSpec.InsertAcceptedWindow | src/reorder.c:166-172 | on an initialised window of at most 2^63 slots, insert returns 0 exactly when the sequence number is `min_seqn + k` (mod 2^64) for a slot `k < size`; then exactly entry `k` changes, to the packet, overwriting what was there |
| ReorderSpec.InsertStaleWindow | src/reorder.c:166-176 | on an initialised window, insert returns -2 exactly when the packet is 1 to 2^63 steps behind `min_seqn` (mod 2^64) |
| ReorderSpec.InsertFutureWindow | src/reorder.c:166-179 | on an initialised window, insert returns -1 exactly when the packet is `size` to 2^63 - 1 steps ahead of `min_seqn` (mod 2^64) |
| ReorderSpec.FirstInsertAccepted | src/reorder.c:152-172 | on an uninitialised buffer the first packet sets `min_seqn` to its own number and is stored in the head slot |
| ReorderSpec.InsertRejectedUnchanged | src/reorder.c:173-179 | a rejected insert changes no slot and not `count`; on an initialised buffer it changes nothing at all |
| ReorderSpec.InsertPreservesInv | src/reorder.c:145-181 | insert keeps the invariant: every occupied entry `k` holds sequence number `min_seqn + k`, and an uninitialised buffer is empty |
| ReorderSpec.PopPreservesConsistent | src/reorder.c:130-143 | dequeuing the head packet moves the floor to its number + 1 and keeps every remaining packet at its distance from the new floor |
| ReorderSpec.DrainOutput | src/reorder.c:183-201 | drain hands out at most `max_pkts` packets, which are the contents of the occupied slots from the head on in slot order; when it stops with room left and slots left, the next slot is empty |
| ReorderSpec.DrainState | src/reorder.c:130-197 | after draining `n` packets the window is shifted by `n` slots with empty slots behind; `min_seqn` is the last packet's number + 1 (unchanged if none); `count` has dropped by `n`, stopping at 0 |
| ReorderSpec.DrainPreservesInv | src/reorder.c:183-201 | drain keeps the slot/sequence invariant |
| ReorderSpec.DrainConsecutive | src/reorder.c:136-197 | on a window satisfying the invariant, drain hands out the numbers `min_seqn, min_seqn + 1, ...` (mod 2^64) |
| ReorderSpec.DrainStopsAtHole | src/reorder.c:195-196 | when drain returns fewer than `max_pkts` packets, the slot now at the head is empty |
| ReorderSpec.ForceDrainExtent | src/reorder.c:220-238 | force-drain hands out at most `max_pkts` packets in at most `budget` iterations; with fewer than `max_pkts` it used every iteration; when it reaches `max_pkts`, its last iteration dequeued the last packet handed out |
| ReorderSpec.ForceDrainInSlotOrder | src/reorder.c:220-228 | the packets handed out are the contents of the occupied slots among those visited, in slot order |
| ReorderSpec.ForceDrainState | src/reorder.c:220-238 | every iteration moves the window on by exactly one slot. `min_seqn` is changed only by dequeues, so it is the last packet's number + 1 (unchanged if none). `count` has dropped by the number handed out, stopping at 0 |
| ReorderSpec.ForceDrainPreservesInv | src/reorder.c:203-242 | force-drain leaves the slot/sequence invariant holding on exit, although a skip breaks it until the next dequeue |
| ReorderSpec.ForceDrainEmptiesWindow | src/reorder.c:220-238 | when force-drain returns fewer than `max_pkts` packets it visited all `size` slots and every slot is now empty |
| Reorder.MinBufsize | src/reorder.c:64-65 | `min_bufsize` is the header plus `size` slot pointers exactly when that sum fits an `unsigned int`, and wraps otherwise |
| Reorder.CreateBufsize | src/reorder.c:90-91 | `bufsize` is the header plus `2 * size` slot pointers reduced modulo 2^32, and that sum exactly when it fits an `unsigned int` |
| Reorder.ReorderBuffer.Zeroed | src/reorder.c:93 | the buffer as `calloc` returns it: every field zero and no slots, with the object and its slot array both newly allocated |
| Reorder.ReorderBuffer.Reset | src/reorder.c:102-107 | reset re-initialises with the buffer's own `memsize` and `size`, leaving an empty, uninitialised window with head 0 |
| Reorder.ReorderBuffer.Dequeue | src/reorder.c:130-143 | dequeue returns the head packet, moves `head` on by one slot modulo `size`, and changes the window exactly as `ReorderSpec.Pop` |
| Reorder.ReorderBuffer.TakeHead | src/reorder.c:197 | `pkts[drain_cnt++] = dequeue_from_order_buf(b)`: the dequeued head packet is appended to the output, `head` moves on one slot and the window becomes `ReorderSpec.Pop` of the old one |
| Reorder.ReorderBuffer.SkipHole | src/reorder.c:229-232 | skipping an empty head slot moves `head` on one slot modulo `size`, leaves every slot as it was, and changes the window exactly as `ReorderSpec.Skip` |
| Reorder.ReorderBuffer.ForceDrainSlot | src/reorder.c:221-237 | one iteration of the force-drain loop: dequeue into the output and count one more when the head slot is occupied, otherwise skip it; `head` moves on one slot either way |
| Reorder.ReorderBuffer.Place | src/reorder.c:169-172 | the accepting branch writes slot `(head + offset) & mask`, which is entry `offset` of the window, and increments `count` modulo 2^32 |
| Reorder.ReorderBuffer.Insert | src/reorder.c:145-181 | insert returns the status code and leaves the window exactly as `ReorderSpec.Insert` says; `head` and the layout do not change and the invariant is kept |
| Reorder.ReorderBuffer.Drain | src/reorder.c:183-201 | drain returns `n <= max_pkts`. It writes to `pkts[0..n)` exactly the packets `ReorderSpec.Drain` hands out and leaves the rest of `pkts` untouched. `head` moves on `n` slots, the window becomes `ReorderSpec.Drain`'s result, and with `n < max_pkts` the head slot is empty |
| Reorder.ReorderBuffer.ForceDrain | src/reorder.c:203-238 | force-drain writes to `pkts[0..n)` exactly the packets `ReorderSpec.ForceDrainAll` hands out and leaves the rest of `pkts` untouched. `head` moves on one slot per iteration, and the window becomes `ReorderSpec.ForceDrainAll`'s result. With `n < max_pkts`, `head` is back where it started and every slot is empty |
| Reorder.Init | src/reorder.c:60-83 | NULL for a NULL buffer or an area below `min_bufsize` (truncated to 32 bits), the buffer untouched; otherwise the buffer zeroed with `memsize`, `size` and `mask = size - 1`, an empty uninitialised window of `size` slots |
| Reorder.Create | src/reorder.c:85-100 | NULL only when allocation fails; otherwise a newly allocated buffer and slot array: the initialised buffer, or, when init refuses the area, the zeroed buffer with no slots |
| Reorder.CreateKeepsRefusedBuffer | src/reorder.c:90-97 | for `size = 2^28` the area create asks for wraps to 56 bytes, below the 0x8000_0038 that init demands |
| Reorder.MinBufsizeWraps | src/reorder.c:64-91 | for `size = 2^31` both sizes wrap to 56 bytes, so init accepts a header-sized area for 2^31 slots |
| Reorder.CreateChecked | src/reorder.c:85-100 | create as intended: NULL when allocation fails or the area does not fit an `unsigned int`; otherwise a newly allocated buffer and slot array of `size` slots whose area holds the header and every slot |
| ReorderScenarios.ScenarioOutOfOrderInserts | src/reorder.c:152-172 | into 8 slots, 5, 6 and 8 are accepted at distances 0, 1 and 3, and 7 fills the hole at 2 |
| ReorderScenarios.ScenarioDrainInOrder | src/reorder.c:183-201 | draining that window with room for ten hands out 5, 6, 7, 8 and leaves it empty, expecting 9 |
| ReorderScenarios.ScenarioInsertSteps | src/reorder.c:152-172 | the same four inserts one at a time, each accepted, with the window after each |
| ReorderScenarios.CreateAndInsert | src/reorder.c:85-172 | on a buffer from `create` with 8 slots, the four inserts are accepted and leave 5, 6, 7, 8 in the first four slots |
| ReorderScenarios.CreateInsertDrain | src/reorder.c:85-201 | on that buffer, a drain with room for ten then hands out 5, 6, 7, 8 |
| ReorderScenarios.ScenarioInserts | src/reorder.c:152-172 | into 4 slots, 5 and then 7 are accepted, leaving a hole for 6 |
| ReorderScenarios.ScenarioRejects | src/reorder.c:173-179 | with the floor at 5 and four slots, 3 is stale (-2) and 9 is beyond the window (-1), and neither changes anything |
| ReorderScenarios.ScenarioDrainStalls | src/reorder.c:191-199 | drain hands out only 5 and stops at the hole |
| ReorderScenarios.ScenarioForceDrainTail | src/reorder.c:229-232 | on the empty four-slot window the remaining two iterations only skip |
| ReorderScenarios.ScenarioForceDrainRest | src/reorder.c:220-238 | with 7 at the head, three iterations hand out 7 and leave the window empty, expecting 8 |
| ReorderScenarios.ScenarioForceDrainSkips | src/reorder.c:217-238 | force-drain skips the hole, hands out 7 and leaves the window empty, expecting 8 |
| Log.Accepted | src/log.c:239-252 | a token is accepted exactly when it is not NULL and equals one of the table entries before the first NULL |
| Log.AcceptSpec | src/log.c:83-94 | `log_accept` keeps the entries before the first NULL, writes the token there and NULL after it, and changes nothing when the first 40 entries are all set |
| Log.ClearSpec | src/log.c:77-81 | `log_clear_accept` makes the first entry NULL, so the search stops at once, and leaves every other entry as it was |
| Log.FirstEmpty | src/log.c:87-88 | the searches stop at the first NULL entry among the first 40, or at 40 when all are set |
| Log.Visible | src/log.c:243-246 | the listed tokens are the entries before that first NULL, in table order |
| Log.AcceptAppends | src/log.c:83-94 | while fewer than 40 tokens are listed, `log_accept(t)` lists `t` after the tokens already listed |
| Log.AcceptFullUnchanged | src/log.c:87-93 | with 40 tokens listed, `log_accept` changes nothing |
| Log.AcceptNullInvisible | src/log.c:83-94 | `log_accept(NULL)` leaves the listed tokens as they were |
| Log.AcceptKeepsTerminator | src/log.c:46-91 | `log_accept` keeps entry 40 NULL, so the table stays NULL-terminated |
| Log.AcceptKeepsAccepted | src/log.c:83-252 | a token that was accepted is still accepted after any `log_accept` |
| Log.ClearEmpties | src/log.c:77-81 | after `log_clear_accept` no token is listed and none is accepted |
| Log.ClearThenAccept | src/log.c:77-94 | `log_clear_accept` followed by `log_accept(t)` lists exactly `t`, so exactly `t` is accepted |
| Log.InfoEmits | src/log.c:232 | the gate of `log_info`: a registered handler always opens it |
| Log.DebugEmits | src/log.c:259 | the gate of `log_debug`: at every level other than 2 it agrees with the gate of `log_info` |
| Log.DebugImpliesInfo | src/log.c:228-263 | whenever `log_debug` emits, `log_info` would emit too |
| Log.GatesByLevel | src/log.c:228-263 | without a handler: nothing is emitted below level 2. At level 2 every `log_info` is emitted and a `log_debug` exactly when its token is accepted. Above level 2 everything is emitted |
| Log.GatesMonotone | src/log.c:228-263 | raising the level never silences a message |
| Log.HandlerEmitsAll | src/log.c:228-263 | with a handler registered, every `log_info` and `log_debug` is emitted |
| Log.Translate | src/log.c:117-148 | an unknown priority is labelled `[UNKN]`; a known one ends in a five-character label opening with `[`, and starts with an escape character exactly on a terminal |
| Log.PlainLabelShape | src/log.c:136-146 | off a terminal each of the eight priorities gets a five-character label opening with `[` |
| Log.ColouredLabel | src/log.c:122-146 | on a terminal, the label is an ANSI escape sequence ending in `m` followed by the plain label |
| Log.UnknownLabel | src/log.c:147 | any other priority is labelled `[UNKN]`, terminal or not, and no known priority has that label |
| Log.LabelsDistinct | src/log.c:122-146 | two different known priorities never get the same label |
| Log.Fatal | src/log.c:266-279 | `fatal` logs at `LOG_CRIT`, and a given message opens the logged text |
| Log.Fatalx | src/log.c:281-286 | `fatalx` logs at `LOG_CRIT` under the token `"fatal"` |
| Log.FatalCritical | src/log.c:266-279 | `fatal` logs at `LOG_CRIT`, under its token or `"fatal"` when the token is NULL |
| Log.FatalMessageParts | src/log.c:269-276 | the logged text is `strerror(errno)` without a message, `emsg: strerror(errno)` when `errno` is set, and `emsg` alone otherwise; a given message always opens the text, and is the whole text exactly when `errno` is 0 |
| Log.FatalxVerbatim | src/log.c:281-286 | `fatalx` logs under `"fatal"`, its message verbatim, and `strerror(0)` only when the message is NULL |
| Log.Logger.constructor | src/log.c:33-47 | the static initial state: `debug = 1`, `level = 0`, no handler, every table entry NULL |
| Log.Logger.Init | src/log.c:49-54 | `log_init` sets `debug` and `level` and leaves the handler alone |
| Log.Logger.Register | src/log.c:70-75 | `log_register` sets whether a handler is installed |
| Log.Logger.ClearAccept | src/log.c:77-81 | `log_clear_accept` empties entry 0 only |
| Log.Logger.Accept | src/log.c:83-94 | `log_accept`'s search loop leaves the table as `AcceptSpec` says and keeps entry 40 NULL |
| Log.Logger.AcceptToken | src/log.c:239-252 | `log_debug_accept_token` returns true exactly when the token is not NULL and equals, as a string, one of the listed tokens |
| Log.Logger.Debug | src/log.c:254-263 | `log_debug` emits exactly as `DebugEmits` says for the current level, handler and table; it searches the table only at level 2 |

## Left out

- Output itself is not modelled: `vlog`, `logit`, `vasprintf`, the writes to stderr and syslog, `date` and the clock, `log_warn`, `log_warnx` and `log_crit`. The model covers only the decision whether, and with which label or message, something would be logged.
- `isatty` is an input (`tty`) rather than a system call. `errno` and `strerror` are parameters of `Fatal`. The `exit(1)` that ends `fatal` is not modelled.
- `log_init`: only the setting of `debug` and `level` is modelled. `getuid`, `openlog`, `closelog` and `tzset` are system calls.
- `log_register` records only whether a callback is installed. The callback and its argument are code the model cannot see.
- The `log_*` calls inside `src/reorder.c` are not modelled; they do not affect the buffer's state.
- The force-drain diagnostics are not modelled: the `drain_log` string, `first_drained`, `skipped_holes` and the final `log_info` (src/reorder.c:207-215, 223-224, 227-228, 231, 234, 239-240). They only feed a log line. `drain_log` has `max_pkts` bytes but is indexed by `i < size` and by `last_packet + 1`.
- Memory layout is not modelled.
  - `Init` installs a fresh slot array of `size` entries instead of pointing `pkts` just past the struct in the same allocation.
  - The header size 56 and pointer size 8 are the LP64 `sizeof` values.
  - `calloc` failure is the input `allocOk`.
  - `mlvpn_reorder_free` has no counterpart, because the model has no deallocation.
- `is_empty` and `is_full` are not modelled, and neither is the `tail` field. No operation calls them and nothing writes `tail`.
- Packets carry only their sequence number and an identity. Payload and ownership are not modelled.
- Thread safety is not modelled: the buffer is unsynchronised, and the model treats its operations as sequential.
- The token table holds string values, not pointers. `strcmp` is modelled as equality of whole strings, so a token string changed by its owner after `log_accept` and a token with an embedded NUL character are not modelled.
- ReorderSpec.Pop and ReorderSpec.ForceDrain carry no contract of their own: their properties are stated by `Reorder.ReorderBuffer.Dequeue`, `ReorderSpec.PopPreservesConsistent`, `ReorderSpec.ForceDrainAll` and `ReorderSpec.ForceDrainExtent`.
- Reorder.ReorderBuffer.Insert: duplicate arrivals are not rejected, because the code does not reject them. An accepted packet overwrites whatever its slot held.
- Reorder.ReorderBuffer.Drain: the fact that drained packets carry consecutive sequence numbers is not part of its `ensures`. `ReorderSpec.DrainConsecutive` states it for the window `Drain`'s result is tied to.
- Reorder.ReorderBuffer.Dequeue: the C function reads through the head pointer without checking it. The model requires the head slot to be occupied, which is how both drains call it.

## Findings

| source | as written | input that shows it | evidently intended | confidence | as-written member | corrected member |
|---|---|---|---|---|---|---|
| src/reorder.c:97-99 | `create` ignores the result of `init` and returns the buffer even when `init` refused its area | `size = 0x1000_0000`: `bufsize` wraps to 56 while `min_bufsize` is 0x8000_0038; the buffer comes back zeroed, with `size` 0 and a NULL slot pointer that the next drain dereferences | return NULL when `init` refuses | not executed; follows from the 32-bit arithmetic by proof | Reorder.Create, Reorder.CreateKeepsRefusedBuffer | Reorder.CreateChecked |
| src/reorder.c:64-91 | both sizes are stored into `unsigned int`, so they wrap for large `size` | `size = 0x8000_0000`: `bufsize` and `min_bufsize` are both 56, so `init` accepts a 56-byte area and records 2^31 slots after it | refuse a size whose area does not fit, so that the area always holds the header and every slot | not executed; follows from the 32-bit arithmetic by proof | Reorder.Init, Reorder.MinBufsizeWraps | Reorder.CreateChecked |
