# libcsp packet-buffer pool, modelled in Dafny

This project models the packet-buffer pool of libcsp, whose interface is
declared in `include/csp/csp_buffer.h`. The pool is a fixed number `N` of
equally sized packet buffers, and each buffer carries a reference count.
`csp_buffer_get` and `csp_buffer_get_isr` take a free buffer, or return NULL
when none is left. `csp_buffer_free` and `csp_buffer_free_isr` drop one
reference, and the last reference returns the buffer to the pool.
`csp_buffer_refc_inc` adds a reference. `csp_buffer_clone` copies a buffer
into a fresh one. `csp_buffer_remaining` reports how many buffers are free,
and `csp_buffer_data_size` reports the fixed payload capacity.

The header holds only declarations and doc comments, so this is a
contract-level model. The method bodies are one possible implementation:
a stack of free slot indices that is popped by get and pushed by free. The
contracts follow the header's comments plus one rule of the pool's design:
a buffer that get hands out, and every buffer right after init, has empty
content. The contracts do not say which free slot get hands out.

Files:

- `wrappers.dfy`: module `Wrappers`, an `Option` type. `None` stands for NULL.
- `csp_buffer.dfy`: module `CspBuffer`, in two parts.
  - The free registry on plain values. A sequence `refs` holds every slot's
    reference count, and a sequence `stack` holds the free indices.
    `Consistent(refs, stack)` says the stack lists exactly the slots whose
    count is 0, each once. Lemmas state what taking a slot, returning a slot
    and recounting a slot do to that relation and to the set of free slots.
  - The class `Pool`. Its fields are the constants `N` and `dataSize` and
    three arrays: `refc` (reference counts), `data` (each slot's payload
    bytes, never longer than `dataSize`), and `free` with `top` (the free
    stack). There is one method per header function. `Valid()` is the
    object invariant. The abstract view is `Refs()`, `Contents()`,
    `FreeSet()` and `LiveSet()`. `Write` and `Read` are not header
    functions: they stand for the protocol stack accessing `packet->data`
    and `packet->length` through the pointer it holds.
- `buffer_usage.dfy`: module `BufferUsage`. Each method sets up a fresh pool,
  runs one usage pattern, and states what the caller observes.

Handles are slot indices (`nat`). Handles that may be NULL are
`Option<nat>`. A slot is live exactly when its count is positive, and free
exactly when its count is 0.

Design points that come from the header itself:

- The size argument of get and get_isr is documented as obsolete and
  ignored. `Get(unused)` never reads it, and no clause of its contract
  mentions it. So every guarantee holds whatever size is passed.
- `dataSize` is a `const` field. `csp_buffer_data_size` therefore returns
  the same value before and after every operation.
- The doc comment at `include/csp/csp_buffer.h:74-80` sits above
  `csp_buffer_data_size`. It has two parts:
  - its text ("Increase reference counter … Use csp_buffer_free() to
    decrement") describes `csp_buffer_refc_inc`, declared at line 85, and is
    modelled by `RefcInc`;
  - its "Returns: CSP buffer data size" part describes
    `csp_buffer_data_size`, modelled by `DataSize`.
- `csp_buffer_init` is declared twice (lines 72 and 83). Both declarations
  are the same function, and the constructor models it.

## Model

| member | source | states |
|---|---|---|
| `CspBuffer.Pool.constructor` | include/csp/csp_buffer.h:72 | Sets up the pool with the given number of buffers and data size: every slot is free, `FreeSet()` holds all N indices, no buffer is live, and every content is empty. |
| `CspBuffer.Pool.Get` | include/csp/csp_buffer.h:13-22 | Returns NULL exactly when no buffer was free, and then nothing changes. Otherwise it returns a slot that was free and was not live. That slot now has count 1 and leaves the free set, so the free count drops by exactly 1. No other count and no other slot's content changes. |
| `CspBuffer.Pool.GetIsr` | include/csp/csp_buffer.h:24-33 | The same contract as `Get`, from interrupt context: NULL exactly when none is free, otherwise a previously free slot, with the free count one lower. |
| `CspBuffer.Pool.Free` | include/csp/csp_buffer.h:35-41 | Freeing NULL is a no-op: the counts, the registry and the free count are unchanged. On a live buffer, its count drops by 1. The slot rejoins the free set, and the free count rises by 1, exactly when that was the last reference. Contents never change. |
| `CspBuffer.Pool.FreeIsr` | include/csp/csp_buffer.h:43-49 | The same contract as `Free`, from interrupt context, including the NULL case. |
| `CspBuffer.Pool.RefcInc` | include/csp/csp_buffer.h:74-85 | Raises a live buffer's count by exactly 1 and changes no other count. The free set and the live set stay the same, so one later free drops only this extra reference. |
| `CspBuffer.Pool.Clone` | include/csp/csp_buffer.h:51-61 | When no buffer is free, returns NULL and changes nothing: counts, contents and the free count. Otherwise it returns a previously free slot, distinct from the source, with count 1. Its content equals the source's, every other slot (the source included) is unchanged, and the free count drops by 1. |
| `CspBuffer.Pool.Remaining` | include/csp/csp_buffer.h:63-70 | Returns the number of free buffers, `|FreeSet()|`. That number lies between 0 and N, and together with the live buffers it makes up N. |
| `CspBuffer.Pool.DataSize` | include/csp/csp_buffer.h:78-81 | Returns the fixed data size set up at init; no buffer's content is longer. |
| `CspBuffer.StackCount` | include/csp/csp_buffer.h:63-70 | In a consistent registry, the stack's elements are exactly the free slots and its height is their number. Free and live slots are disjoint and add up to the capacity. |
| `CspBuffer.PopConsistent` | include/csp/csp_buffer.h:13-22 | The slot on top of the registry has count 0. Giving it count 1 and popping it keeps the registry consistent, removes it from the free slots and adds it to the live ones. |
| `CspBuffer.PushConsistent` | include/csp/csp_buffer.h:35-41 | Dropping the last reference of a live slot leaves room on the registry. Pushing the slot keeps the registry consistent and moves the slot from live to free. |
| `CspBuffer.RecountConsistent` | include/csp/csp_buffer.h:74-85 | Changing a live slot's count to another positive count (refc_inc, or a free that is not the last) leaves the registry consistent and changes neither the free nor the live slots. |
| `BufferUsage.Drain` | include/csp/csp_buffer.h:13-22 | Getting buffers until none is left hands out every previously free slot exactly once, each with a single holder, and leaves no free slot. |
| `BufferUsage.Exhaust` | include/csp/csp_buffer.h:13-33 | In a fresh pool of N buffers, N gets hand out all N slots, each once, and the next get returns NULL. After one of them is freed, one more get returns that slot, and the get after it returns NULL again. |
| `BufferUsage.ShareAndRelease` | include/csp/csp_buffer.h:74-85 | After refc_inc on a buffer with one holder, the first free leaves it live and the free count unchanged. The second free raises the free count by exactly 1. |
| `BufferUsage.CloneIsIndependent` | include/csp/csp_buffer.h:51-61 | A clone is a different slot holding the original's content. Writing new content to the original afterwards leaves the clone's content as it was, and writing to the clone then leaves the original's new content as it was. |
| `BufferUsage.CloneWhenExhausted` | include/csp/csp_buffer.h:51-61 | Cloning with no free buffer returns NULL. The free count stays 0, and the source's content is unchanged. |
| `BufferUsage.FreeNull` | include/csp/csp_buffer.h:35-49 | free(NULL) and free_isr(NULL) leave the number of free buffers unchanged. |

## Left out

- Task versus interrupt context: critical sections, interrupt masking and
  semaphores are platform concurrency calls. `GetIsr` and `FreeIsr` are the
  same operations as `Get` and `Free`. The concurrent task-plus-interrupt
  scenario is not modelled.
- The packet layout: `csp_packet_t`, `csp/csp_types.h` and the `void *` to
  `csp_packet_t *` conversions are not part of this model. A buffer's
  content is its used payload bytes, a byte sequence at most `dataSize`
  long. Other header fields of a packet are not modelled, and clone copies
  only this content.
- How `csp_init` chooses the number of buffers and the data size: both are
  constructor parameters. The model has no re-initialisation of a pool that
  is already set up.
- Double free, refc_inc on a free buffer, and clone or refc_inc on NULL: the
  header states no behaviour for these. `Free`, `FreeIsr`, `RefcInc` and
  `Clone` therefore require the buffer to be live.
- Which free slot get hands out: this is unspecified. The contracts say only
  that the slot was free. The stack order of the bodies is not promised.
- Integer widths: reference counts, N and the data size are unbounded
  naturals. The width of the reference counter is not visible in the
  header, so counter overflow is not modelled. `Remaining` returns a Dafny `int` where the C code
  returns an `int`.
- Get and the constructor: their contracts state that a buffer taken by get
  (and so by get_isr and clone before the copy) and every buffer after init
  has empty content (length 0). This is a rule of the pool's design; the
  header itself does not say what a fresh buffer holds.
