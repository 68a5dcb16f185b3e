# orderedmap in Dafny

A model of secnot/orderedmap, a Go insertion-ordered map in the style of Python's
`OrderedDict`. The model proves how the map behaves and how an iterator behaves while
the map is mutated under it. The map keeps two structures side by side:

- a hash table from each key to its node;
- a circular doubly linked list of nodes, anchored by a sentinel node.

A new key is linked in just before the sentinel, which is the newest end. An iterator is
a bare cursor (`curr`, `root`, `reverse`). Each `Next` follows the live `Next`/`Prev` link
of the node it stands on. A deleted node keeps its own links, so an iterator standing on
it still walks on into the ring.

`orderedmap.go` and `ordered_map.go` are behaviourally the same file. They differ only in
layout, comments, named versus unnamed results, and the package name. Both are modelled
once. The table cites `orderedmap.go`; the same operation in `ordered_map.go` is at:

- `NewOrderedMap` 12-21, `Len` 24-26, `Set` 31-43, `Get` 46-52;
- `GetLast` 55-61, `GetFirst` 64-71, `Delete` 75-82;
- `Pop` 89-100, `PopLast` 104-106, `PopFirst` 110-112;
- `Move` 116-144, `MoveLast` 148-150, `MoveFirst` 153-155;
- `Iter` 166-172, `IterReverse` 175-181, `Next` 185-205, `String` 209-219.

Modules:

- `Wrappers`: the `Option` type. It replaces Go's `(…, ok bool)` results.
- `SeqUtil`: sequence helpers (`Reverse`, `Distinct`, `Find`, `Without`) and their lemmas.
- `AssocList`: the reference specification. The map's entries are a sequence of
  `(key, value)` pairs, oldest first, with distinct keys. `Put`, `Remove`, `Pop`, `Move`,
  `First`, `Last`, `Lookup` and `Drain` say what each Go operation does to that sequence.
- `RingModel`: a value-level picture of the linked ring. A `Ring` has the live nodes in
  order, plus the graves: every node unlinked so far, with the two links it kept. A
  `Cursor` is finished (`Done`, Go's `nil`), on the sentinel (`Start`), or on a node
  (`At`). `Remaining(r, c, reverse)` is the sequence of nodes a pass from `c` will still
  return, provided the map is not changed again. The lemmas say how `Set`, `Delete` and
  `Next` change that sequence.
- `Nodes`: the `node` struct of `node.go`, as a class.
- `OrderedMaps`: the classes `OrderedMap` and `MapIterator`, imperative as in Go. The map
  mutates real `Node` objects on the heap. The ghost fields `nodes` (the live ring order)
  and `graves` tie it to `RingModel`, and the ghost function `Entries()` ties it to
  `AssocList`. Every operation is proved to act on `Entries()` exactly as its
  `AssocList` function does, and to act on the ring as the matching `RingModel`
  function does. `MapIterator.ValidFor(m)` holds across every mutation of `m`. An
  iterator built before any number of `Set`, `Delete`, `Pop` and `Move` calls therefore
  still has a well-defined rest of its pass.
- `Passes`: client code that mutates the map during a pass, as the iterator tests in
  `orderedmap_iter_test.go` do. Each method proves the iterator stays valid. The
  `Set` and `Delete` methods also state what the rest of the pass meets afterwards.

A key inserted during a forward pass is linked in between the newest live node and the
sentinel, so the pass meets it last. This includes a cursor standing on the live newest
node, as `TestIterInsert` expects (`orderedmap_iter_test.go:304-349`). There are two
exceptions:

- The pass has already returned no value and finished.
- The cursor stands on a deleted node whose kept `Next` links, followed through nodes
  deleted later, lead to the sentinel without re-entering the live ring.

The plainest case of the second: a forward cursor stands on the newest node, that node is
deleted, and then a new key is `Set`. The deleted node's kept `Next` link points at the
sentinel, so the pass ends without meeting the new key. The test at
`orderedmap_iter_test.go:698-702` expects exactly this. In the model:

- `RingModel.InsertRemaining` states the condition as `Open(r, c)`. By the definition of `Locate`, `Open` is false for a cursor the ring knows (`Knows`) in exactly these two cases;
- `RingModel.DeleteNewestUnderCursor` proves the pass ends in this case.

Deleting the node a parked cursor is due to resume at does not drop that node
from the pass. A parked cursor is one standing on a node that was deleted earlier. The
node now deleted keeps its links, so the pass still meets it and then walks on to the
live ring (`RingModel.DeleteRemaining`, `Parked`).

## Model

| member | source | states |
|---|---|---|
| `OrderedMaps.OrderedMap.constructor` | orderedmap.go:15-24 | The new map is valid, with an empty table, a fresh sentinel linked to itself both ways, no entries and no graves. |
| `OrderedMaps.OrderedMap.Len` | orderedmap.go:27-29 | The size of the table equals the number of entries a full pass meets. |
| `OrderedMaps.OrderedMap.Set` | orderedmap.go:33-45 | Entries become `AssocList.Put`: a present key keeps its place and gets the new value, with the table and the ring unchanged. A new key gets a fresh node, linked in at the newest end (`Append`). The map stays valid. |
| `OrderedMaps.OrderedMap.Get` | orderedmap.go:48-55 | The result is `AssocList.Lookup` of the entries: `Some(value)` of a present key, `None` otherwise. |
| `OrderedMaps.OrderedMap.GetLast` | orderedmap.go:58-66 | The result is the newest entry, read through the sentinel's `Prev`, or `None` on an empty map. |
| `OrderedMaps.OrderedMap.GetFirst` | orderedmap.go:69-77 | The result is the oldest entry, read through the sentinel's `Next`, or `None` on an empty map. |
| `OrderedMaps.OrderedMap.Delete` | orderedmap.go:80-87 | Entries become `AssocList.Remove`. A present key leaves the table and its node leaves the ring, keeping its links as a grave (`Remove`). The deleted node's value is left as it was, so a pass still walking through it reads the old value. An absent key changes nothing. The map stays valid. |
| `OrderedMaps.OrderedMap.Pop` | orderedmap.go:90-101 | The result and new entries are `AssocList.Pop`: the newest or oldest entry, deleted; `None` and no change on an empty map. The popped node keeps the value returned. |
| `OrderedMaps.OrderedMap.PopLast` | orderedmap.go:104-106 | `Pop` at the newest end, the popped node keeping the value returned. |
| `OrderedMaps.OrderedMap.PopFirst` | orderedmap.go:109-111 | `Pop` at the oldest end, the popped node keeping the value returned. |
| `OrderedMaps.OrderedMap.Move` | orderedmap.go:114-142 | The result is true exactly when the key is present. Entries become `AssocList.Move`: that entry goes to the newest or oldest end, others keep their order, no value changes. The table and graves are unchanged, and the ring is `Relink`ed. |
| `OrderedMaps.OrderedMap.MoveLast` | orderedmap.go:145-147 | `Move` to the newest end. |
| `OrderedMaps.OrderedMap.MoveFirst` | orderedmap.go:150-152 | `Move` to the oldest end. |
| `OrderedMaps.MapIterator.constructor` | orderedmap.go:163-167 | The struct literal of `Iter` and `IterReverse`: the cursor stands on the given sentinel, walking in the given direction. |
| `OrderedMaps.OrderedMap.Iter` | orderedmap.go:162-168 | The fresh forward iterator stands on the sentinel, is valid for the map, and has every live node still to meet, oldest first. |
| `OrderedMaps.OrderedMap.IterReverse` | orderedmap.go:171-177 | The reverse iterator is the same, with the live nodes to meet newest first. |
| `OrderedMaps.OrderedMap.Listing` | orderedmap.go:206-216 | The loop of `String`: a forward pass stores exactly the map's entries, oldest first, one per slot. So it fills exactly `Len()` slots. |
| `OrderedMaps.MapIterator.Next` | orderedmap.go:180-203 | When nothing is pending, it returns `None` and finishes the iterator. Otherwise it returns the first pending node's key and value, stands on that node, and leaves the rest still pending. It stays valid. |
| `OrderedMaps.MapIterator.Advances` | orderedmap.go:188-195 | The link `Next` follows leads to the sentinel exactly when nothing is pending, and otherwise to the first pending node. |
| `OrderedMaps.MapIterator.Begins` | orderedmap.go:162-177 | On the sentinel of a valid map, a pass has all live nodes to meet, in the iterator's direction. |
| `OrderedMaps.OrderedMap.EntryIndex` | orderedmap.go:9-12 | The table and the ring agree: keys are distinct, exactly the table's keys have an entry, and a key's entry sits where its node sits in the ring. |
| `Nodes.Node.constructor` | node.go:13-15 | The new node holds the given key, value and both links. |
| `Nodes.Node.Blank` | orderedmap.go:16-17 | The sentinel starts with no links; the map's constructor then links it to itself. |
| `RingModel.FullPasses` | orderedmap.go:162-177 | A pass from the sentinel meets the live order forward and its exact reverse backward. |
| `RingModel.StepRemaining` | orderedmap.go:180-203 | One `Next` step returns the first node still to meet and leaves the rest to meet, in either direction, from any cursor the ring knows (live, deleted or sentinel). |
| `RingModel.InsertRemaining` | orderedmap.go:33-45 | After `Set` of a new key, a forward pass meets it last, unless the pass can no longer reach the sentinel from the newest node. A reverse pass meets it only before its first step. |
| `RingModel.DeleteRemaining` | orderedmap.go:80-87 | After `Delete`, the deleted node is dropped from the rest of the pass in either direction. The one exception is a cursor parked on an earlier-deleted node whose kept link leads to it. |
| `RingModel.DeleteUnderCursor` | orderedmap.go:80-87 | Deleting the node a cursor stands on leaves the rest of its pass unchanged. |
| `RingModel.DeleteNewestUnderCursor` | orderedmap.go:80-87 | Deleting the newest node under a forward cursor ends that pass. A key `Set` afterwards is not met either. |
| `RingModel.AppendWF` | orderedmap.go:37-40 | Linking in a node the ring has never seen keeps the ring well formed and adds exactly that node. |
| `RingModel.RemoveWF` | orderedmap.go:81-85 | Unlinking a live node keeps the ring well formed: the node becomes the newest grave, and the live nodes are the rest. |
| `RingModel.RelinkWF` | orderedmap.go:119-139 | Moving a live node to either end keeps the ring well formed, with the same live nodes and graves. |
| `RingModel.MirrorWF` | orderedmap.go:188-192 | The mirror image of a ring, walked by a reverse pass, is well formed and has the same live nodes and graves. |
| `AssocList.PutLookup` | orderedmap.go:33-45 | After `Set(k, v)`, `Get(k)` is `v`, every other key reads as before, and keys stay distinct. |
| `AssocList.PutKeys` | orderedmap.go:31-32 | Overwriting keeps the key order. A new key goes last. |
| `AssocList.RemoveLookup` | orderedmap.go:80-87 | After `Delete(k)`, `Get(k)` is absent, every other key reads as before, and keys stay distinct. |
| `AssocList.RemoveKeys` | orderedmap.go:80-87 | Deleting drops exactly that key from the key order. |
| `AssocList.PopEnds` | orderedmap.go:90-101 | `Pop` returns the newest or oldest entry and leaves the entries without it. An empty map stays empty. |
| `AssocList.DrainFirst` | orderedmap.go:109-111 | Popping the oldest entry until the map is empty returns the entries in insertion order (FIFO). |
| `AssocList.DrainLast` | orderedmap.go:104-106 | Popping the newest entry until the map is empty returns the entries newest first (LIFO). |
| `AssocList.MovePermutes` | orderedmap.go:114-142 | `Move` permutes the entries and keeps the keys distinct. |
| `AssocList.MoveLookup` | orderedmap.go:114-142 | `Move` leaves every key's value as it was. |
| `AssocList.MoveEnd` | orderedmap.go:129-139 | After `Move`, the present key's entry is at the chosen end. The length is unchanged, and the other entries, read from the other end, are exactly those `Delete` would leave, in their old order. |
| `AssocList.MoveAtEnd` | orderedmap.go:114-142 | Moving the entry already at the chosen end changes nothing. |
| `AssocList.MoveIdempotent` | orderedmap.go:114-142 | Moving the same key to the same end twice is the same as once. |
| `AssocList.KeyCount` | orderedmap.go:27-29 | With distinct keys, the number of keys equals the number of entries, so `Len` counts entries. |
| `AssocList.LookupMember` | orderedmap.go:48-55 | `Get(k)` is `v` exactly when the pair `(k, v)` is an entry. |
| `Passes.SetDuringPass` | orderedmap_iter_test.go:135-217 | `Set` during a pass keeps the iterator valid. Overwriting leaves the rest of the pass unchanged. A new key is added at the end of a forward pass still open (see `TestIterInsert`, 304-349). A reverse pass gets it only before its first step (`TestIterReverseInsert`, 351-395). |
| `Passes.DeleteSeen` | orderedmap_iter_test.go:398-430 | Deleting the node the cursor stands on, or a node already met, leaves the rest of the pass unchanged. Otherwise the node is dropped from it, except in the parked case. |
| `Passes.DeleteDuringPass` | orderedmap_iter_test.go:485-567 | `Delete` during a pass keeps the iterator valid. The entries lose the key, the deleted node keeps its value, and the rest of the pass changes as `DeleteSeen` states. |
| `Passes.MoveDuringPass` | orderedmap.go:114-142 | `Move` during a pass keeps the iterator valid, since the ring keeps the same live nodes and graves. The result is true exactly when the key is present, and the entries become `AssocList.Move`. |
| `Passes.PopDuringPass` | orderedmap.go:90-101 | `Pop` during a pass keeps the iterator valid, since the popped node becomes a grave. The result and entries are `AssocList.Pop`, and the popped node keeps the value returned. |
| `Passes.NextAfterEnd` | orderedmap_iter_test.go:121-131 | A finished iterator stays finished, even after a `Set`; `Next` returns `None`. |
| `Passes.DeleteEachMet` | orderedmap_iter_test.go:432-483 | A forward pass that deletes every key it meets meets every entry once, oldest first, and leaves the map empty. |

## Left out

- `String`'s formatting (`fmt.Sprintf` of each pair and of the buffer) is not modelled. `Listing` models its loop and returns the pairs it would format, as a sequence. The preallocated `make([]string, om.Len())` becomes a growing sequence. The contract implies the loop writes exactly `Len()` slots.
- Go's `interface{}` keys and values become type parameters. Keys need equality (`K(==)`), and both types need a default value (`(0)`). The default stands for the sentinel's `nil` key and value. Go map hashing is not modelled; the table is a Dafny `map`.
- `(value, ok)` and `(key, value, ok)` results become `Option` values. A `None` stands for Go's `nil, nil, false`.
- `Len`, `Get`, `GetFirst` and `GetLast` are functions that read the heap, because Go's versions change nothing.
- `OrderedMaps.MapIterator.Next` takes the map as a ghost parameter, which only states the contract. Go writes `curr` twice when it reaches the sentinel; the model writes `nil` in one assignment.
- Go's inline code is split into helper methods so that each proof stays small: `Drop` for `Delete`, `Unlink`, `Link` and `Relocate` for `Move`, and `ListFirst`, `ListRest` and `Fill` for `String`'s loop. They do the same writes in the same order.
- Thread safety: the Go code has none, and the model is sequential.
- `Passes.MoveDuringPass`: proves the iterator stays valid, but not what the rest of the pass meets after a `Move`. `Passes.PopDuringPass`: the same for `Pop`. For `Pop` that follows from `DeleteDuringPass`, since `Pop` is `GetLast` or `GetFirst` followed by `Delete`.
- The tests' random-key and mixed insert-and-delete scenarios (`TestIterDeleteOneRandom`, `TestIterInsertDelete`, `TestIterDelteInsert`) are covered by `SetDuringPass` and `DeleteDuringPass`. Each step of a scenario is one of these calls. Their loops and random choices are not modelled.
