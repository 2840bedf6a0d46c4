# Sequential queues of the `container` repository, in Dafny

This project models the two sequential FIFO queues of the Go `container`
repository and proves that each behaves as a queue over an abstract sequence.
Push appends to that sequence. Pop and peek read and remove its front.

- **Ring-buffer queue** (`concurrent/queue/queue.go`, module `RingQueue`).
  This is a growable circular buffer with fields `buf`, `head`, `tail` and
  `count`. `RingQueue.Queue` is a class over an `array<T>`, and its ghost
  field `Contents` is the queued sequence. The object invariant `Valid()`
  states the following:
  - the capacity is a power of two, at least `MinQueueLen` = 16;
  - `count` is at most the capacity, and `head` and `tail` are slots of the buffer;
  - `tail` is `(head + count) mod len(buf)`;
  - element `i` sits in slot `(head + i) mod len(buf)` (predicate `IsRing`).

  Indices wrap with Go's `x & (len(buf) - 1)`. The model keeps that
  expression: `Bits.BitAnd` is Go's `&` on non-negative integers.
  `Bits.MaskIsMod` proves that the mask is reduction modulo a power of two,
  which is why the invariant must keep the capacity a power of two. A second
  invariant, `Compact()`, says that above the minimum capacity the buffer is
  always more than a quarter full. Push preserves it by doubling and Pop by
  halving.
- **Two-stage queue** (`queue/queue.go`, module `TwoStageQueue`). The
  contents are `head[headPos..] + tail`. Elements are Go `interface{}`
  values, which may be nil. They are modelled as `Option<T>`, with `None`
  for nil. `Valid()` also states that the consumed slots `head[..headPos]`
  are all nil, since `PopFront` clears each slot it vacates.

The reader/writer lock of the ring-buffer queue only serialises callers and
is not modelled. Every operation is modelled as one sequential step.

## Model

| member | source | states |
|---|---|---|
| `RingQueue.Queue.constructor` | concurrent/queue/queue.go:22-27 | a new queue is empty, satisfies the invariant and has a fresh buffer of capacity 16 |
| `RingQueue.Queue.Size` | concurrent/queue/queue.go:29-35 | the size is the length of the queued sequence |
| `RingQueue.Queue.Empty` | concurrent/queue/queue.go:37-39 | true exactly when nothing is queued |
| `RingQueue.Queue.Resize` | concurrent/queue/queue.go:41-56 | the new buffer is fresh with capacity `2*count`; the queued sequence is unchanged and the invariant holds again; `head = 0` and `tail = count` |
| `RingQueue.Queue.Push` | concurrent/queue/queue.go:58-70 | the contents become `old + [elem]` and `count` grows by one; the capacity doubles exactly when the buffer was full, and otherwise `head` and the capacity are unchanged; both invariants are preserved |
| `RingQueue.Queue.Peek` | concurrent/queue/queue.go:72-83 | on a non-empty queue (the source panics otherwise), returns the front element `Contents[0]` |
| `RingQueue.Queue.Get` | concurrent/queue/queue.go:85-103 | for `-count <= i < count` (the source panics otherwise), returns `Contents[i]` for `i >= 0` and `Contents[count + i]` for negative `i` |
| `RingQueue.Queue.Pop` | concurrent/queue/queue.go:105-125 | on an empty queue, returns false and changes no field; otherwise returns `(old[0], true)` and leaves `old[1..]`; the capacity halves exactly when it was above 16 and the new `count*4` equals it; both invariants are preserved |
| `RingQueue.Queue.Index` | concurrent/queue/queue.go:127-159 | returns the smallest position holding `val`, or -1 exactly when `val` is not queued (including on an empty queue); changes nothing |
| `RingQueue.Queue.TailIsModular` | concurrent/queue/queue.go:65-68 | under the invariant, `tail == (head + count) % len(buf)` |
| `RingQueue.Queue.SlotsAreModular` | concurrent/queue/queue.go:99-100 | element `i` is at slot `(head + i) & (len(buf) - 1)`, and that mask equals `(head + i) % len(buf)` |
| `RingQueue.Mask` | concurrent/queue/queue.go:66-67 | on a power-of-two capacity, the step `x & (len - 1)` wraps an index that is at most one lap past the end back into the buffer |
| `RingQueue.Copy` | concurrent/queue/queue.go:46-51 | Go's `copy`: copies `min(room, available)` elements into place and leaves the rest of the destination unchanged |
| `RingQueue.RingPush` | concurrent/queue/queue.go:65-68 | writing the first free slot after a ring that is not full appends to that ring |
| `RingQueue.RingPop` | concurrent/queue/queue.go:114-118 | the front of a ring is its start slot, and advancing the start drops that element |
| `RingQueue.QuarterFullHalves` | concurrent/queue/queue.go:119-122 | when the buffer is shrunk at a quarter full, the new capacity `2*count` is a power of two of at least 16 |
| `RingQueue.PopKeepsCompact` | concurrent/queue/queue.go:114-122 | one pop, with its halving rule, keeps the buffer more than a quarter full above the minimum capacity |
| `RingQueue.PushAll` | concurrent/queue/queue_test.go:68-73 | pushing `xs` in order appends `xs` to the contents |
| `RingQueue.Drain` | concurrent/queue/queue_test.go:54-57 | popping until a pop fails yields exactly the old contents in order, and leaves the queue empty |
| `RingQueue.PushAllThenDrain` | concurrent/queue/queue_test.go:29-65 | n pushes onto a new queue, followed by pops until one fails, return the pushed values exactly once each, in push order |
| `Bits.BitAnd` | concurrent/queue/queue.go:66-67 | Go's `x & y` on non-negative integers, bit by bit, as used at lines 67, 100 and 117; the result is at most either operand |
| `Bits.MaskIsMod` | concurrent/queue/queue.go:11-13 | for a power of two `n`, `x & (n - 1) == x % n` |
| `Bits.DoubleIsPowerOfTwo` | concurrent/queue/queue.go:61-63 | doubling a full power-of-two buffer keeps its capacity a power of two |
| `Bits.PowerOfTwoAbove` | concurrent/queue/queue.go:119-120 | a power of two above another is at least twice it, so a buffer that halves from above 16 stays at least 16 |
| `TwoStageQueue.Queue.constructor` | queue/queue.go:3-18 | the zero-value queue is empty and satisfies the invariant |
| `TwoStageQueue.Queue.Len` | queue/queue.go:20-23 | the length is that of `head[headPos..] + tail` |
| `TwoStageQueue.Queue.Empty` | queue/queue.go:25-27 | true exactly when the contents are empty |
| `TwoStageQueue.Queue.PushBack` | queue/queue.go:29-32 | the contents become `old + [w]`; only `tail` changes |
| `TwoStageQueue.Queue.PeekFront` | queue/queue.go:49-58 | returns the front element, or nil when the queue is empty |
| `TwoStageQueue.Queue.PopFront` | queue/queue.go:34-47 | returns what `PeekFront` returned; on an empty queue changes nothing; otherwise the contents become `old[1..]`; when the first stage was used up, the stages swap first (`head := tail`, `headPos := 0`, `tail := []`); the vacated slot is cleared and the consumed slots stay nil |
| `TwoStageQueue.Queue.CleanFront` | queue/queue.go:60-71 | removes exactly the longest nil-free prefix; afterwards the queue is empty or its front is nil; returns true exactly when something was removed; the loop terminates because `len` decreases |
| `TwoStageQueue.NonNilPrefix` | queue/queue.go:62-71 | the length of the longest prefix without nil: every element before it is non-nil, and it ends the sequence or is followed by a nil |

## Left out

- The lock-free queue (`concurrent/lock_free_queue/queue.go`) is not part of this model. Its substance is CAS retry loops, atomic pointer publication and the progress guarantees they give. A sequential model cannot express these, and its sequential meaning is the same FIFO as the two queues above.
- The `sync.RWMutex` of the ring-buffer queue is not modelled. This includes the missing `RUnlock` on the empty path of `Index` (queue.go:128-131), which is a lock-discipline defect, not a data-logic defect.
- `RingQueue.Queue.Pop`: on an empty queue Go returns the zero value of `T`. The model leaves that value unspecified, because a generic Dafny type has no designated zero value. The contract says only that `false` is returned and no field changes. The doc comment says this call panics (queue.go:105-106). The code returns `(zero, false)` instead (queue.go:109-113), and the model follows the code.
- Overflow of Go's `int` is not modelled, so `count<<1` and `count<<2` are `2*count` and `4*count`. On 64-bit platforms overflow would need more than 2^61 queued elements. On 32-bit platforms `count<<2` overflows from about 2^29 elements.
- Go slice aliasing is not modelled. In particular, `q.tail = q.head[:0]` reuses the old head's backing array (queue/queue.go:41). The stages are sequences, so this reuse and garbage collection are not represented.
- `RingQueue.Queue.Index`: Go's `==` on the `comparable` element type is modelled as Dafny equality, which is an equivalence. Element types whose `==` is not one are not represented. For floats, a queued NaN is never found and `-0.0` matches `+0.0`. For interface types, comparing values that hold slices or maps panics. The contract holds for element types whose `==` is an equivalence.
- The ring buffer's unused slots keep stale values, because Pop does not clear them. The model leaves their values unconstrained; only the queued slots are specified.
- The concurrent parts of the stress test (goroutines, `WaitGroup`, `GOMAXPROCS`, concurrent pops while pushing) are not modelled. Its sequential claim is modelled by `PushAllThenDrain`.
