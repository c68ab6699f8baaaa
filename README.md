# Copy-on-write trie of bustub's primer, in Dafny

This project models the persistent trie of `src/primer/trie.cpp`. A `Trie` is an
immutable version handle on a root `TrieNode`. Each node owns a map from
characters to shared child nodes and an `is_value_node_` flag. A
`TrieNodeWithValue<T>` also holds a value of type `T`. The three operations are
modelled:

- `Get<T>` walks the key one character at a time. It passes only through
  value nodes, then checks the run-time type of the reached node.
- `Put<T>` clones the root and every value node on the key's path. It hangs a
  new value node under each edge that is missing or leads to a non-value node.
  The value is moved into the first of these nodes, and every later one gets
  what the move left behind.
- `Remove` clones the path up to the last character. It then erases the final
  edge, or replaces the final node with a clone whose flag is cleared.

Files:

- `wrappers.dfy`: `Option`.
- `trie_spec.dfy` (module `TrieSpec`): the abstract value `Node` of a trie node
  (children, flag, held value) and the operations as recursive functions
  `GetF`, `PutF`, `RemoveF`.
- `trie_properties.dfy` (module `TrieProperties`): what the operations promise,
  proved about those functions.
- `trie.dfy` (module `TrieImpl`): the heap model. `TrieNode` objects have real
  fields `children`, `isValue`, `val` and ghost fields `model` and `repr`.
  `Trie.Get`, `Trie.Put` and `Trie.Remove` are loops moving a cursor `aux`
  down the tree, as the source does. Each is proved equal to its recursive
  function.
  - `Put` and `Remove` have no `modifies` clause. They write only into the
    clones they allocate, and they ensure the receiver's nodes are unchanged.
    That is the persistence of versions.
  - The path clones are tracked by ghost state: `Chain`, `Walking`, and the map
    `Olds` of the receiver's nodes.
  - A ghost pass, `Seal`, brings the clones' ghost fields up to date once the
    walk is over.
- `put_findings.dfy` (module `PutFindings`): the two discrepancies of `Put`
  (see Findings), the overwrite that does not happen and the moved-from
  strings, and the intended definition.

Where the code and its design description disagree, the model follows the code:

- **New nodes under Put.** Every node `Put` creates is a value node, not only
  the last one. The design asks for plain branching nodes before the last
  character. Since `Get` cannot pass a non-value node, this makes the prefixes
  inside the new region readable (`PutNewPath`). Each new node is built with
  `std::move(value)`: the first holds the value, and the later ones hold a
  moved-from value (`MovedFrom`). That is the same value for the integer
  types and an empty string for `std::string` (see Findings).
- **Put on an existing path.** `Put` on a key whose whole path already
  consists of value nodes keeps the old value (see Findings). The design asks
  for the value to be replaced.
- **Remove keeps the value.** The clone with the cleared flag made by `Remove`
  still holds its value. `Node` therefore keeps the flag and the held value
  apart.

## Model

| member | source | states |
|---|---|---|
| TrieSpec.Leaf | src/primer/trie.cpp:45-46 | definition: the node `TrieNodeWithValue<T>(value)` builds, with no children, its flag set and the value; what `Put` does with it is stated by `PutNewPath` |
| TrieSpec.Step | src/primer/trie.cpp:13-14 | definition of one hop: the child under the character if the edge exists and leads to a value node; its consequences are stated by `GetHopRule` and `GetStopsAtBrokenHop` |
| TrieSpec.Walk | src/primer/trie.cpp:11-19 | definition of `Get`'s cursor loop as a recursion, one `Step` per character, failing at the first broken hop; its properties are `WalkAppend`, `WalkNoneExtends`, `WalkEndsAtValue` |
| TrieSpec.Stored | src/primer/trie.cpp:20-24 | definition of the `dynamic_cast` check: the held value if its type is the requested one; its consequences are stated by `GetTypeRule` |
| TrieSpec.GetF | src/primer/trie.cpp:10-24 | a hit has the requested type, and is the value held by the node the walk of the key reaches |
| TrieSpec.MovedFrom | src/primer/trie.cpp:46 | definition of what `std::move(value)` leaves behind: the same integer, or an empty string; used by `PutF` and `PutCursor` |
| TrieSpec.PutF | src/primer/trie.cpp:34-54 | `Put` keeps the root's flag and value and adds the key's first character to the root's edges, which then leads to a value node; the empty key leaves the children as they were |
| TrieSpec.PutCursor | src/primer/trie.cpp:37-53 | definition of the state of `Put`'s loop after a prefix: the cursor's node and the value in hand, which is moved from at every new node; its properties are `PutAlongKey` and the `PutCursor*` lemmas |
| TrieSpec.RemoveLast | src/primer/trie.cpp:75-84 | after the last step of `Remove`, the final edge no longer leads to a value node; the flag, the value and every other edge are unchanged |
| TrieSpec.RemoveF | src/primer/trie.cpp:64-85 | a rebuilt root keeps the receiver root's flag and value |
| TrieSpec.RemoveT | src/primer/trie.cpp:60-85 | definition of the root of the trie `Remove` returns: the receiver's own root on `return *this` (line 72), otherwise the rebuilt root of `return Trie(new_root)` (line 85); `RemovePresent` and `RemoveFrame` are stated with it |
| TrieProperties.WalkAppend | src/primer/trie.cpp:12-19 | walking `p + s` is walking `p` and then `s` from where it stopped |
| TrieProperties.WalkNoneExtends | src/primer/trie.cpp:16-17 | once the walk fails, it fails for every longer key |
| TrieProperties.WalkEndsAtValue | src/primer/trie.cpp:14-15 | a non-empty walk always ends on a value node |
| TrieProperties.GetHopRule | src/primer/trie.cpp:12-18 | a key is found only if every node passed on its path, including the last, is a value node |
| TrieProperties.GetStopsAtBrokenHop | src/primer/trie.cpp:12-18 | `Get` is absent, for every type, once the next character has no edge or its edge leads to a non-value node |
| TrieProperties.GetTypeRule | src/primer/trie.cpp:20-24 | a key answers for at most one type; a hit exactly when the reached node holds a value of the requested type; for the empty key only the root's held value counts |
| TrieProperties.PutAlongKey | src/primer/trie.cpp:37-53 | after each prefix `p` of the key, the new trie reaches what `Put` builds from the state its loop is in after `p`: the cursor's node and the value in hand |
| TrieProperties.PutCursorOnExistingPath | src/primer/trie.cpp:39-43 | while the walk exists, the loop only clones: its cursor is the receiver's node and the value is still in hand |
| TrieProperties.PutCursorAppend | src/primer/trie.cpp:37-53 | the loop over `p + q` is the loop over `p` followed by the loop over `q` |
| TrieProperties.PutCursorBelowLeaf | src/primer/trie.cpp:44-48 | below a new leaf, once the value has been moved from, every further character makes a new leaf holding what the move left behind |
| TrieProperties.Divergence | src/primer/trie.cpp:12-18 | a failed walk breaks at one position `j`: the walk of `k[..j]` exists and the next hop fails |
| TrieProperties.PutCursorAfterDivergence | src/primer/trie.cpp:44-48 | past the break, the loop stands on new leaves: the first holds `v`, the later ones `MovedFrom(v)`, and the value in hand is `MovedFrom(v)` |
| TrieProperties.PutNewPath | src/primer/trie.cpp:44-48 | if the walk of `k` breaks at `j`, the first new node (`k[..j+1]`) reads `v`, every later prefix reads `MovedFrom(v)`, and `k` ends at a fresh childless leaf replacing whatever subtree was there |
| TrieProperties.PutExistingPath | src/primer/trie.cpp:37-43 | if every edge of `k` leads to a value node, `Put` builds a trie equal to the receiver and `Get` of `k` is unchanged; this includes the empty key |
| TrieProperties.PutPathReachable | src/primer/trie.cpp:37-50 | after `Put`, every non-empty prefix of the key leads through value nodes only |
| TrieProperties.PutFrame | src/primer/trie.cpp:34-54 | every key that is not a prefix of `k` walks and reads the same after `Put` |
| TrieProperties.RemoveEarlyNoOp | src/primer/trie.cpp:64-73 | `Remove` returns the receiver itself exactly when the walk over all but the last character fails |
| TrieProperties.RemoveAlongKey | src/primer/trie.cpp:64-84 | when that walk succeeds, the rebuilt trie reaches, after all but the last character, the receiver's node there with the last step applied |
| TrieProperties.RemovePresent | src/primer/trie.cpp:75-84 | removing a present key makes it and every extension of it unreachable; a childless final node loses its edge, otherwise it is replaced by a copy with the flag cleared, the same children and the same value |
| TrieProperties.RemoveFinalNoOp | src/primer/trie.cpp:75-85 | when the final edge is missing or leads to a non-value node, the rebuilt trie equals the receiver |
| TrieProperties.RemoveFrame | src/primer/trie.cpp:60-85 | every key that does not start with `k` reads the same after `Remove` |
| TrieImpl.TrieNode.WithValue | src/primer/trie.cpp:45-46 | the new value node is valid, has no children, has its flag set and holds `v` |
| TrieImpl.TrieNode.Clone | src/primer/trie.cpp:34 | a fresh node with the same flag, the same value and the same children map, so the same abstract value |
| TrieImpl.TrieNode.GraftClone | src/primer/trie.cpp:39-43 | along a value edge, the clone of the child replaces it under the character, and the abstract child is the clone's abstract value |
| TrieImpl.TrieNode.GraftLeaf | src/primer/trie.cpp:44-48 | at a missing or non-value edge, a fresh childless leaf holding the value in hand is hung under the character |
| TrieImpl.TrieNode.PutDescend | src/primer/trie.cpp:38-52 | one pass of `Put`'s loop: the new cursor's abstract value is the value child under the character, or `Leaf(v)`; the value in hand stays `v` after a clone and becomes `MovedFrom(v)` after a new node |
| TrieImpl.TrieNode.ClearedClone | src/primer/trie.cpp:80-81 | a fresh clone with the same children and value and the flag cleared |
| TrieImpl.TrieNode.Unset | src/primer/trie.cpp:75-84 | the last step of `Remove` turns the node's abstract value into `RemoveLast` of the old one, and the node stays valid |
| TrieImpl.TrieNode.EraseChild | src/primer/trie.cpp:78 | erasing an edge removes exactly that character from the abstract children |
| TrieImpl.TrieNode.SetChild | src/primer/trie.cpp:82 | assigning an edge sets exactly that character's abstract child |
| TrieImpl.StepMatches | src/primer/trie.cpp:13-14 | the hop test on a node object agrees with `Step` on its abstract value |
| TrieImpl.PutCursorStep | src/primer/trie.cpp:37-50 | one character of `Put`, with the value in hand moved from at a new node, moves the rebuilt path one level down without changing the final result |
| TrieImpl.RemoveCursorStep | src/primer/trie.cpp:64-70 | one character of `Remove`'s walk moves the rebuilt path one level down without changing the final result |
| TrieImpl.PutStep | src/primer/trie.cpp:38-50 | one pass of `Put`'s loop keeps the walk state, moves the value in hand at a new node, and keeps the final result equal to the grafted path over `Put` of the rest of the key with what is left in hand |
| TrieImpl.RemoveStep | src/primer/trie.cpp:65-70 | one pass of `Remove`'s loop along a value edge keeps the walk state and the `RemoveF` result of the whole key |
| TrieImpl.RemoveBroken | src/primer/trie.cpp:71-72 | a missing or non-value edge before the last character makes `RemoveF` absent |
| TrieImpl.RemoveLastStep | src/primer/trie.cpp:75-84 | the final step on the cursor clone gives the `RemoveF` result of the whole key |
| TrieImpl.SealStep | src/primer/trie.cpp:42 | a clone whose child under `c` is the valid clone below becomes valid, with that child in its abstract value |
| TrieImpl.SealLevel | src/primer/trie.cpp:54 | sealing one more clone upward keeps the sealed clone's abstract value equal to the grafted path below it |
| TrieImpl.Seal | src/primer/trie.cpp:54 | once all clones are sealed, the top clone is a valid root whose abstract value is the grafted path |
| TrieImpl.PutWalk | src/primer/trie.cpp:34-53 | `Put`'s loop, with a local `value` moved from at every new node, leaves a chain of fresh clones whose graft is `PutF` of the receiver |
| TrieImpl.RemoveWalk | src/primer/trie.cpp:61-84 | `Remove`'s loop reports a failed walk exactly when `RemoveF` is absent; otherwise fresh clones whose graft is `RemoveF` of the receiver |
| TrieImpl.Publish | src/primer/trie.cpp:54 | `return Trie(new_root)`: a fresh valid version whose abstract value is the grafted path |
| TrieImpl.Untouched | src/primer/trie.cpp:34-47 | a version none of whose nodes was written keeps its validity and abstract value |
| TrieImpl.NodeUntouched | src/primer/trie.cpp:61-82 | a node none of whose subtree was written keeps its validity and abstract value |
| TrieImpl.Trie.constructor | src/primer/trie.cpp:85 | `Trie(new_root)` has the given node as its root |
| TrieImpl.Trie.Get | src/primer/trie.cpp:10-29 | the cursor loop returns exactly `GetF` of the version |
| TrieImpl.Trie.Put | src/primer/trie.cpp:32-58 | a fresh version equal to `PutF` of the receiver; the receiver's nodes are not written and it keeps its abstract value |
| TrieImpl.Trie.Remove | src/primer/trie.cpp:60-88 | the receiver itself when `RemoveF` is absent, otherwise a fresh version equal to it; the receiver's nodes are not written |
| PutFindings.OverwriteIgnored | src/primer/trie.cpp:37-43 | after putting 1 and then 2 under "a", `Get` still reads 1 |
| PutFindings.PutOverwriteF | src/primer/trie.cpp:56-57 | the intended `Put`: the node at the end of the key becomes a value node holding `v` with its children kept; other edges are kept |
| PutFindings.PutOverwriteGet | src/primer/trie.cpp:56-57 | round trip of the intended `Put`: `Get` of `v`'s type on `k` returns `v` |
| PutFindings.PutOverwriteFrame | src/primer/trie.cpp:34-54 | the intended `Put` leaves every key that is not a prefix of `k` reading as before |
| PutFindings.PutOverwriteAgreesOnNewPath | src/primer/trie.cpp:44-48 | for a value a move leaves intact (the integer types), when the walk of `k` fails, the intended and the written `Put` build the same trie |
| PutFindings.LeafPutsAgree | src/primer/trie.cpp:44-48 | from a fresh leaf holding such a value, both definitions build the same chain of leaves |
| PutFindings.OverwriteStored | src/primer/trie.cpp:56-57 | with the intended `Put`, putting 1 and then 2 under "a" reads back 2 |
| PutFindings.MovedStringRead | src/primer/trie.cpp:44-48 | as written, `Put<std::string>` of "x" under "ab" on the empty trie makes "a" read "x" and "ab" read the empty string |
| PutFindings.StringStored | src/primer/trie.cpp:56-57 | with the intended `Put`, "ab" reads back "x" on the same input |

## Left out

- Ownership: `shared_ptr` reference counting and node reclamation are not modelled. Sharing is modelled by object identity, and nodes are never freed.
- Move-only values: `Integer` and `MoveBlocked` are not modelled. For the modelled types, the repeated `std::move(value)` of line 46 is modelled by `MovedFrom`.
- MovedFrom: a moved-from `std::string` is taken to be empty. The C++ standard only promises a valid but unspecified string; the common standard libraries leave it empty.
- Template instantiations and `dynamic_cast` are replaced by a finite `TypeTag` on `Value` (`UInt32`, `UInt64`, `StdString`). `Integer` and `MoveBlocked` are not modelled.
- `src/primer/trie.h` is not part of this model. `Clone` is taken to be a shallow copy of the flag, the value and the children map. A `Trie` always has a non-null root, and the empty trie is a root with no children and no value (`Trie.EmptyTrie`, `TrieNode.Plain`).
- A null root is not modelled: `Trie.Valid()` requires a root node.
- Trie.Remove: `requires |key| > 0`, because the source computes `key.end() - 1` and `*key.rbegin()`, which are undefined for an empty key.
- Concurrency: concurrent reads of published versions are not modelled. Immutability is what the model shows (`Put` and `Remove` write only fresh objects).

## Findings

| source | as written | input that shows it | evidently intended | confidence | as-written member | corrected member |
|---|---|---|---|---|---|---|
| src/primer/trie.cpp:37-43, 54 | when every edge of the key already leads to a value node, the loop only clones those nodes and never stores the new value; for the empty key the new root is a plain clone | `Put("a", 1u32)` then `Put("a", 2u32)`: `Get<uint32_t>("a")` reads 1 | the node at the end of the key becomes a `TrieNodeWithValue` holding the new value and keeping its children (comment at lines 56-57) | high; not executed | PutFindings.OverwriteIgnored | PutFindings.PutOverwriteF |
| src/primer/trie.cpp:44-48 | every new node is built with `std::move(value)`, so only the first new node gets the value and the later ones get a moved-from one; a `std::string` put two or more characters past the existing path reads back empty | `Put<std::string>("ab", "x")` on the empty trie: `Get<std::string>("ab")` reads "" while `Get<std::string>("a")` reads "x" | the node at the end of the key holds the value put, as the round trip `get(put(empty, k, v), k) == v` promises | high; not executed | PutFindings.MovedStringRead | PutFindings.PutOverwriteF |
