# Node queue and header codec of the navigation-mesh runtime

This project models two self-contained parts of the Detour navigation-mesh
runtime (Go port) and proves what they promise.

* **The node queue** (`nodequeue.go`). This is the open list of the path
  search: a bounded binary min-heap of search-node references.
  * Storage is a fixed array of `capacity + 1` slots plus a live count
    `size`, and the nodes are ordered by their `Total` cost.
  * Push sifts a node up from the first free slot.
  * Pop removes the root, moves the last live node into the root hole and
    trickles it down, ending with a sift-up.
  * Modify is the decrease-key operation. It finds a node by reference
    with a linear scan and sifts it up from there.
  * The queue is the class `NodeQueue.DtNodeQueue`: one array, one counter,
    and methods whose loops are proved with invariants.
  * Each loop is specified by a pure function over slot values.
    `NodeQueue.SiftUp` models bubbleUp and `NodeQueue.SiftDown` models
    trickleDown.
  * Heap order, the multiset of live nodes and the minimum at the root are
    proved about those functions (module `HeapOrder` for the key-sequence
    facts) and are carried to the class through its `Valid`/`IsHeap`
    invariant.
* **The header records and their little-endian codec**
  (`detour/structs.go`). These are `navMeshSetHeader`, `NavMeshParams`
  and `MeshHeader`.
  * Every field is one 32-bit word, written with `PutUint32` in
    declaration order: word k goes at byte offset 4k.
  * Signed fields go through `uint32(int32)`. Float fields go through
    their IEEE 754 bit patterns.
  * Each record has:
    * a constant `Size`;
    * a pure `Encode` (its `Words` through `LittleEndian.EncodeWords`);
    * a `Serialize` method. It writes into a byte array from a start
      offset, or fails without writing when the room left is smaller than
      `Size`.
  * `MeshHeader` is also read back by `Unserialize`. That function fails on
    a short input; otherwise its result re-encodes to exactly the bytes it
    read.
  * Round trips, injectivity and the offset of every field are proved.
  * `MeshTile` is declared as a plain record.

Files: `heap_order.dfy` (module `HeapOrder`), `node_queue.dfy` (module
`NodeQueue`), `little_endian.dfy` (module `LittleEndian`), `structs.dfy`
(module `Structs`).

## Model

| member | source | states |
|---|---|---|
| HeapOrder.Parent | nodequeue.go:28-33 | the parent slot `(i-1)/2` of every non-root slot is a strictly smaller index; for slot 0 the int32 truncation gives 0 |
| HeapOrder.ChildrenOf | nodequeue.go:39-47 | slots 2i+1 and 2i+2 have parent i, and no other slot does |
| HeapOrder.AncestorBelow | nodequeue.go:28-33 | a slot on the path from i to the root is no greater than i |
| HeapOrder.RootIsMin | nodequeue.go:56-61 | in a heap-ordered key sequence the root key is no greater than any key |
| HeapOrder.DecreaseKey | nodequeue.go:72-79 | lowering one key of a heap leaves the keys ordered everywhere except on the edge above that slot, which is the shape modify repairs |
| HeapOrder.BubbleStep | nodequeue.go:30-33 | moving the greater parent key down into the hole keeps the keys ordered around the hole, now at the parent, and x still fits under its children |
| HeapOrder.BubbleFinish | nodequeue.go:35 | once the parent key is no greater than x (or the hole is the root), placing x restores full heap order |
| HeapOrder.SmallerChild | nodequeue.go:41-44 | the child trickleDown descends into is a child of i within the live range |
| HeapOrder.SmallerChildIsMin | nodequeue.go:41-44 | that child holds the smallest key among the children of i |
| HeapOrder.TrickleStep | nodequeue.go:45-47 | moving the smaller child's key up into the hole keeps the keys ordered around the hole, now at that child |
| HeapOrder.PrefixOrdered | nodequeue.go:62 | shrinking the live range of a heap keeps it heap-ordered |
| HeapOrder.AppendHole | nodequeue.go:68-69 | the slot push appends after a heap is a hole with no children, ordered around |
| NodeQueue.SiftUp | nodequeue.go:27-36 | the slots bubbleUp leaves: while the hole's parent holds a greater key it moves down and the hole moves up, then the node fills the hole; same length, and the node is placed |
| NodeQueue.SiftUpPath | nodequeue.go:27-36 | bubbleUp changes only slots on the path from i to the root, and the node ends up in one of them |
| NodeQueue.Landing | nodequeue.go:27-36 | the slot where bubbleUp places the node lies on the path from i to the root |
| NodeQueue.SiftUpShifts | nodequeue.go:30-35 | bubbleUp moves each ancestor it passes down exactly one level: every slot on the path strictly below the node's landing slot now holds its parent's old entry, whose key is greater than the node's, the landing slot's parent (if any) has a key no greater than the node's, and every slot on the path strictly above the landing slot keeps its entry |
| NodeQueue.SiftUpFilled | nodequeue.go:27-36 | bubbleUp of a node leaves no live slot empty |
| NodeQueue.SiftUpCurrent | nodequeue.go:27-36 | every slot still holds the key of its node after bubbleUp |
| NodeQueue.SiftUpBag | nodequeue.go:27-36 | bubbleUp only moves entries: the live references are the old ones with the hole filled by the node |
| NodeQueue.SiftUpOrders | nodequeue.go:27-36 | when the keys are ordered around the hole and the node fits under its children, bubbleUp restores heap order |
| NodeQueue.Follow | nodequeue.go:41-44 | the child trickleDown follows is SmallerChild of the live keys: a live child of i, 2i+1 or 2i+2 |
| NodeQueue.FollowByNodes | nodequeue.go:41-42 | on slots that hold their nodes' current keys, the choice made by comparing the nodes' Total is the followed child |
| NodeQueue.TrickleMove | nodequeue.go:45-47 | one trickleDown step copies one reference, keeps the slots current and filled, and leaves the same trickle-down from the child |
| NodeQueue.SiftDown | nodequeue.go:38-50 | the slots trickleDown leaves: the hole descends into the followed child while it has a live child, then bubbleUp places the node; same length, and the node is placed |
| NodeQueue.SiftDownFilled | nodequeue.go:38-50 | trickleDown of a node leaves no live slot empty |
| NodeQueue.SiftDownCurrent | nodequeue.go:38-50 | every slot still holds the key of its node after trickleDown |
| NodeQueue.SiftDownBag | nodequeue.go:38-50 | trickleDown only moves entries: the live references are the old ones with the hole filled by the node |
| NodeQueue.SiftDownOrders | nodequeue.go:38-50 | when the keys are ordered around the hole, trickleDown (ending with bubbleUp) restores heap order whatever the node's key |
| NodeQueue.FirstIndex | nodequeue.go:73-74 | the index the scan stops at is the first occurrence of the node, or -1 exactly when the node is absent |
| NodeQueue.FirstIndexAt | nodequeue.go:73-76 | a slot holding the node with no earlier occurrence is the one the scan finds |
| NodeQueue.PushSlots | nodequeue.go:67-70 | after push's sift-up the live keys are heap-ordered and the live references gain the node |
| NodeQueue.PopSlots | nodequeue.go:60-65 | after pop's trickle-down of the last live node the live keys are heap-ordered and the live references lose the old root |
| NodeQueue.ModifySlots | nodequeue.go:72-79 | after modify's sift-up the live references are unchanged, and the keys are heap-ordered again if they had the decrease-key shape |
| NodeQueue.DtNodeQueue.constructor | nodequeue.go:15-25 | the capacity is the positive argument, the array has capacity + 1 empty slots, the size is 0, and the queue is a valid heap |
| NodeQueue.DtNodeQueue.BubbleUp | nodequeue.go:27-36 | the array afterwards holds exactly the references SiftUp computes from the slots before |
| NodeQueue.DtNodeQueue.TrickleDown | nodequeue.go:38-50 | the array afterwards holds exactly the references SiftDown computes from the slots before |
| NodeQueue.DtNodeQueue.ChildToFollow | nodequeue.go:39-44 | the child the loop moves into is the followed child |
| NodeQueue.DtNodeQueue.Clear | nodequeue.go:52-54 | the queue becomes empty and valid; the array contents and capacity are unchanged |
| NodeQueue.DtNodeQueue.Top | nodequeue.go:56-58 | returns slot 0; on a non-empty heap-ordered queue that is a live node of minimal Total |
| NodeQueue.DtNodeQueue.RootHoldsMin | nodequeue.go:56-58 | in a non-empty heap-ordered queue slot 0 has the minimal Total of the live nodes |
| NodeQueue.DtNodeQueue.Pop | nodequeue.go:60-65 | returns the old slot 0, whose Total is minimal; size drops by one; the live multiset loses exactly that node; heap order holds |
| NodeQueue.DtNodeQueue.PopDone | nodequeue.go:62-63 | the state pop's trickle-down leaves is a valid heap holding the old live nodes without the root |
| NodeQueue.DtNodeQueue.Push | nodequeue.go:67-70 | size grows by one; the live multiset gains exactly the node; heap order holds |
| NodeQueue.DtNodeQueue.PushDone | nodequeue.go:68-69 | the state push's sift-up leaves is a valid heap holding the old live nodes and the node |
| NodeQueue.DtNodeQueue.Modify | nodequeue.go:72-79 | size and the live multiset are unchanged; an absent node leaves the array unchanged; a present node in the decrease-key shape leaves the queue heap-ordered |
| NodeQueue.DtNodeQueue.ModifyDone | nodequeue.go:74-76 | the state modify's sift-up leaves is valid with the same live nodes, and heap-ordered when the keys had the decrease-key shape |
| NodeQueue.DtNodeQueue.Empty | nodequeue.go:81-83 | true exactly when there are no live nodes |
| NodeQueue.DtNodeQueue.GetCapacity | nodequeue.go:90-92 | the capacity is positive and one less than the array length |
| LittleEndian.PutUint32 | detour/structs.go:119 | four bytes whose sum, weighted by powers of 256 with the least significant byte first, is the word |
| LittleEndian.Uint32OfPut | detour/structs.go:156 | reading back a written word gives the word |
| LittleEndian.Uint32 | detour/structs.go:156-180 | the word read from four bytes, least significant first, is the one word whose PutUint32 gives back exactly those bytes |
| LittleEndian.Int32Bits | detour/structs.go:119 | `uint32(x)` of an int32 is the word congruent to x modulo 2^32 |
| LittleEndian.Int32FromBits | detour/structs.go:156 | `int32(w)` of a word is the int32 congruent to w modulo 2^32 |
| LittleEndian.Int32RoundTrip | detour/structs.go:119-133 | a signed field survives the trip through its word |
| LittleEndian.Uint32RoundTrip | detour/structs.go:156-170 | every word is the image of an int32 |
| LittleEndian.EncodeWords | detour/structs.go:119-143 | a run of n words takes 4n bytes |
| LittleEndian.DecodeWords | detour/structs.go:156-180 | reading n words from 4n bytes gives n words |
| LittleEndian.EncodeWordAt | detour/structs.go:119-143 | word k of a run is written at bytes [4k, 4k+4) |
| LittleEndian.DecodeWordAt | detour/structs.go:156-180 | word k of a read run comes from bytes [4k, 4k+4) |
| LittleEndian.DecodeEncodeWords | detour/structs.go:119-180 | reading a written run, whatever follows it, gives the run |
| LittleEndian.EncodeDecodeWords | detour/structs.go:119-180 | writing a read run gives the bytes it came from |
| LittleEndian.EncodeWordsInjective | detour/structs.go:119-143 | two runs of one length that write alike are equal |
| LittleEndian.PutUint32At | detour/structs.go:119 | PutUint32 into a buffer replaces exactly the four bytes at the offset with the word's bytes |
| LittleEndian.PutRunWord | detour/structs.go:119-143 | writing word k of a run at offset 4k extends the written prefix of the run by that word |
| Structs.NavMeshParams.Size | detour/structs.go:57-59 | the size is the length of the encoding (28 bytes) |
| Structs.NavMeshParams.Words | detour/structs.go:71-77 | the seven words Serialize writes: Orig[0..2], TileWidth, TileHeight as bit patterns, then MaxTiles and MaxPolys (their offsets are stated by ParamsLayout) |
| Structs.NavMeshParams.Encode | detour/structs.go:71-77 | the 28 bytes Serialize writes, from which the seven words read back in order |
| Structs.NavMeshParams.Serialize | detour/structs.go:61-78 | fails and writes nothing exactly when fewer than Size bytes are left; otherwise writes the encoding at the start offset and no other byte |
| Structs.ParamsLayout | detour/structs.go:71-77 | Orig[0..2], TileWidth, TileHeight, MaxTiles and MaxPolys sit at offsets 0, 4, ..., 24 |
| Structs.ParamsRoundTrip | detour/structs.go:71-77 | the seven words read back from the encoding give the parameters, and the encoding is injective |
| Structs.NavMeshSetHeader.Size | detour/structs.go:16-18 | the size is 12 plus the parameter size, 40 bytes, the length of the encoding |
| Structs.NavMeshSetHeader.Words | detour/structs.go:30-32 | the three words of Magic, Version and NumTiles, as `uint32` of each |
| Structs.NavMeshSetHeader.Encode | detour/structs.go:30-33 | the 40 bytes Serialize writes: the three words read back in order from the first 12, and the parameter encoding after them |
| Structs.NavMeshSetHeader.Serialize | detour/structs.go:20-34 | fails and writes nothing exactly when fewer than Size bytes are left; otherwise writes the encoding at the start offset and no other byte |
| Structs.SetHeaderLayout | detour/structs.go:30-33 | Magic, Version and NumTiles sit at offsets 0, 4 and 8 as two's-complement words, the parameters at [12, 40) |
| Structs.SetHeaderInjective | detour/structs.go:30-33 | two set headers that encode alike are equal |
| Structs.MeshHeader.Size | detour/structs.go:105-107 | the size is the length of the encoding (100 bytes) |
| Structs.MeshHeader.Words | detour/structs.go:119-143 | the 25 words Serialize writes, in declaration order (their offsets and values are stated by HeaderLayout and HeaderWordsRoundTrip) |
| Structs.MeshHeader.Encode | detour/structs.go:119-143 | the 100 bytes Serialize writes, from which the 25 words read back in order |
| Structs.MeshHeader.Serialize | detour/structs.go:109-144 | fails and writes nothing exactly when fewer than Size bytes are left; otherwise writes the encoding at the start offset and no other byte |
| Structs.HeaderLayout | detour/structs.go:119-180 | field k (declaration order) sits at offset 4k and is read back from there |
| Structs.HeaderWordsRoundTrip | detour/structs.go:156-180 | reading every field back from the header's words gives the header |
| Structs.HeaderFromWords | detour/structs.go:156-180 | the fields Unserialize assigns from the 25 words read (int32 of the signed ones, the bit patterns of the floats); writing those fields gives back the words |
| Structs.Unserialize | detour/structs.go:146-181 | fails exactly on fewer than 100 bytes; otherwise the result encodes to the 100 bytes read |
| Structs.UnserializeSerialize | detour/structs.go:119-180 | unserializing what Serialize writes, whatever follows, gives the header back |

## Left out

- `getMemUsed` (nodequeue.go:85-88) is not modelled. It adds host-specific `unsafe.Sizeof` values.
- `navMeshSetHeader.WriteTo` (detour/structs.go:36-42) is not modelled. It hands the bytes to an `io.Writer`. It sizes its buffer to exactly `Size()`, so its call to Serialize always succeeds.
- The float semantics of `DtNode.Total` are not modelled. The key is a `real`, which is totally ordered. A NaN `Total` would break heap order in the source.
- `DtNode` is modelled with its `Total` field only. The other search-node fields play no part in the queue.
- The float fields of the records are their 32-bit patterns (`Float32`). The codec only moves those bits, so no float arithmetic is modelled.
- The assertion library behind `newDtNodeQueue` is the constructor's precondition `n > 0`. The second assertion (a non-empty allocation) follows from it.
- NodeQueue.DtNodeQueue.constructor and NodeQueue.DtNodeQueue.TrickleDown: `m_size`, `m_capacity` and the slot indices are int32 in the source but unbounded integers here, so two wrap-arounds are not captured. First, `m_capacity+1` (nodequeue.go:21) wraps for n = 2^31-1, and `make` then panics; the constructor also accepts n beyond the int32 range. Second, `i*2+1` (nodequeue.go:39, 47) wraps to a negative int32 once i >= 2^30, which takes a queue of more than 2^30+1 nodes; `child < m_size` then holds and `m_heap[child]` panics, where the model descends normally. Below a capacity of 2^30 neither wrap can happen, and the model is exact there.
- NodeQueue.DtNodeQueue.Pop: its precondition is a non-empty heap-ordered queue. On an empty queue the source indexes slot -1 and panics.
- NodeQueue.DtNodeQueue.Push: its precondition is a heap-ordered queue with a free slot. A push into a full array panics on the index in the source.
- NodeQueue.DtNodeQueue.Push and NodeQueue.DtNodeQueue.Modify: the node argument is a non-nil `DtNode`, so a nil node is not modelled. In the source, `push(nil)` on an empty queue does not panic: the loop test `i > 0` fails at slot 0, so `node.Total` is never read, and nil is stored in slot 0, leaving a live nil slot that the model's `Valid` rules out. On a non-empty queue, `push(nil)` panics on `node.Total` (nodequeue.go:30). `modify(nil)` finds no live slot equal to nil in a valid queue and changes nothing.
- NodeQueue.DtNodeQueue.Modify: heap order afterwards is stated for a queue in the decrease-key shape at the node's first slot (`HeapOrder.DecreaseKey` shows that lowering one key of a heap gives that shape). The model does not speak of the node's key before its caller lowered it.
- NodeQueue.DtNodeQueue.Top and Pop: the order holds among the nodes' keys at the time of the call. The source relies on its caller changing a node's `Total` only before `modify`.
- The Go slices passed to `Serialize` are an array plus a start offset. A start beyond the end of the array is excluded by a precondition; in Go, slicing there panics before Serialize runs.
- Structs.MeshHeader.Serialize writes the 25 `PutUint32` calls of the source as one loop over `Words()`, in the same order and at the same offsets 0, 4, ..., 96. The parameter and set-header writes are unrolled like the source.
- Structs.Unserialize returns a new `MeshHeader` instead of assigning the receiver's fields one by one. A short source is a `Failure` result instead of a panic. Aliasing between the receiver and other references is not modelled.
- The panic of `PutUint32` on a buffer shorter than four bytes is excluded by the precondition of `LittleEndian.PutUint32At`. Every caller has checked `Size()` first.
- `MeshTile` (detour/structs.go:184-206) is only a record, since the source gives it no operations. Its `Next` pointer is a tile index.
- recast/buildcontext.go (diagnostic logging, timers, formatted output) and recast/inputgeom.go (geometry file loading through external loaders) are not part of this model.
