# HashMap in Dafny

A model of a small C hash map library (`hashmap.c`, `hashmap.h`). The map
stores fixed-size keys and values as byte copies. It has 0x10000 buckets,
and each bucket holds a singly linked collision chain. The bucket of a key
is the 64-bit FNV-1a hash of its first `key_size` bytes, modulo the number
of buckets. The library offers five entry points: `makemap`, `map_assign`,
`map_get`, `map_remove` and `map_destroy`. `map_assign`, `map_get` and
`map_remove` all place keys with `FNV1a_hash`. `map_destroy` only frees
memory and is listed under "Left out".

The model follows the code as written, including three places where the
code does not do what a hash map is usually expected to do:

- Keys are compared with `strncmp` over `key_size` bytes, not byte for
  byte. Two keys that agree up to a shared NUL byte compare equal, whatever
  bytes follow (`Strn.StrnEqStopsAtNul`). The hash still covers all
  `key_size` bytes, so such keys usually land in different buckets and are
  never compared. They are the same key for the map only when they meet in
  one chain.
- `map_assign` walks a non-empty chain only while the current node has a
  successor, so it never compares the tail node. When the tail is the first
  node of its chain whose key matches, re-assigning that key links a second
  node for the same key. `map_get` then keeps returning the old value
  (`Chains.TailReassignDuplicates`, `Hashmap.ReassignSingleKey`).
- `map_remove` never decrements `item_count`. The model keeps a ghost tally
  of removals, and the map invariant states that `item_count` equals the
  number of linked entries plus that tally.

Layout:

- `fnv.dfy` (module `Fnv`): the hash loop, proved against a recursive
  definition. That definition is related to the front-to-back fold of the
  FNV-1a definition in the IETF draft "The FNV Non-Cryptographic Hash
  Algorithm", and proved to give the draft's published test vectors
  (`Fnv.KnownVectors`).
- `strncmp.dfy` (module `Strn`): `strncmp(a, b, n) == 0` and its
  characterisation.
- `chains.dfy` (module `Chains`): one bucket's chain as a sequence of
  entries, with the pure meaning of assign, get and remove on it.
- `hashmap.dfy` (module `Hashmap`): the class `Map` over an `array` of
  buckets. Its methods walk the chains with the loops of the C code and are
  proved against the functions of `Chains`.

## Model

| member | source | states |
|---|---|---|
| Fnv.Hash | hashmap.c:13-23 | The loop result is the FNV-1a hash of the first `input_length` bytes. A negative length leaves the offset basis. |
| Fnv.HashOfIsFold | hashmap.c:17-20 | The hash agrees with the front-to-back fold of the FNV-1a definition (offset basis, then xor and multiply per octet). |
| Fnv.FoldAppend | hashmap.c:19-20 | Hashing a concatenation continues from the hash state reached after the first part. |
| Fnv.KnownVectors | hashmap.c:17-20 | The constants give the published 64-bit FNV-1a values for "", "a" and "foobar". |
| Hashmap.BucketIndex | hashmap.c:88 | `hash % buckets_list_length` always lands inside the 0x10000 buckets. |
| Hashmap.KeyIndexOfPrefix | hashmap.c:87 | Only the first `key_size` bytes of a key decide its bucket: keys that agree there land in the same bucket. |
| Hashmap.KeyIndex | hashmap.c:87-88 | The bucket of a key is computed from the hash of its first `key_size` bytes, and it is in range. |
| Strn.StrnEqIff | hashmap.c:110 | `strncmp(a, b, n) == 0` holds exactly when a and b agree at every position below n that no earlier NUL in a precedes. |
| Strn.StrnEqRefl | hashmap.c:139 | Every key compares equal to itself. |
| Strn.StrnEqSym | hashmap.c:139 | The comparison result does not depend on the argument order. |
| Strn.StrnEqTrans | hashmap.c:164 | Keys that compare equal to a common key compare equal to each other. |
| Strn.ExactImpliesStrnEq | hashmap.c:110 | Keys with identical first n bytes compare equal. |
| Strn.StrnEqStopsAtNul | hashmap.c:110 | Keys that agree up to and including a NUL compare equal, whatever bytes follow. |
| Chains.FirstMatch | hashmap.c:138-144 | The found position holds a matching key, and no earlier entry (none at all when nothing is found) matches. |
| Chains.LookupIsFirstMatch | hashmap.c:136-146 | A lookup is empty exactly when no entry matches. Otherwise it returns the value of the first matching entry. |
| Chains.FirstMatchPrefix | hashmap.c:109-116 | The first match in a prefix of a chain is the first match of the whole chain when that lies inside the prefix, and none otherwise. |
| Chains.FirstMatchSnoc | hashmap.c:118 | Linking a node after the tail changes the first match only when nothing before it matched. |
| Chains.AssignChainShape | hashmap.c:106-121 | Assign keeps every stored key and the order of the entries. It either changes one matching value before the tail or grows the chain by the new entry at the end. |
| Chains.LookupAfterOverwrite | hashmap.c:110-111 | When the walk stops at a matching node, that node keeps its key and takes the new value, and the key's lookup then yields the new value. |
| Chains.LookupAfterAppend | hashmap.c:118 | When no node before the tail matches, the new node goes after the tail. The key's lookup then yields the new value, unless the old tail matches, in which case it yields the tail's old value. |
| Chains.LookupAfterAssign | hashmap.c:100-121 | After an assign, the key's lookup yields the new value. The one exception is when the key's first match is the tail; then the lookup still yields the tail's old value. |
| Chains.LookupAfterAssignOther | hashmap.c:100-121 | An assign does not change the lookup of any key that compares unequal to the assigned key. |
| Chains.TailReassignDuplicates | hashmap.c:107-120 | When the tail is the key's first match, re-assigning the key appends a duplicate node, and the key keeps its old value. |
| Chains.SingleKeyHistory | hashmap.c:100-120 | For a key alone in its chain: a first assign starts the chain and a second appends a duplicate. Lookups keep the first value, and a remove unlinks the first node, so the second value shows through. |
| Chains.RemoveChainShape | hashmap.c:163-180 | A remove unlinks exactly the first matching entry and keeps the others in order. It leaves a chain with no match unchanged. |
| Chains.RemoveChainMultiset | hashmap.c:164-175 | The entries after a removal are the entries before it, minus the removed one. |
| Chains.RemoveUndoesFreshAssign | hashmap.c:100-121 | Removing a key that is absent changes nothing. Assigning an absent key and then removing it restores the chain. |
| Hashmap.TotalEntriesUpdate | hashmap.c:103 | Replacing one bucket changes the entry total by the difference in that bucket's chain length. |
| Hashmap.ScanBeforeTail | hashmap.c:107-116 | The assign loop reports a match exactly when a node before the tail matches, at the position of the first such node. |
| Hashmap.ScanForMatch | hashmap.c:136-146 | The get and remove loop reports a match exactly when some node matches, at the position of the first such node. |
| Hashmap.Map.constructor | hashmap.c:48-61 | All 0x10000 buckets are empty with hash 0, the sizes are recorded, `item_count` is 0, and the map invariant holds. |
| Hashmap.MakeMap | hashmap.c:27-64 | Allocation failure gives null. Otherwise the result is a fresh, empty, consistent map. |
| Hashmap.Map.Assign | hashmap.c:66-122 | An allocation failure returns -1 and leaves the map unchanged. Otherwise it returns 0, and the key's bucket becomes the assigned chain. An empty bucket also gets the hash. `item_count` grows exactly when a node is linked, and the invariant is kept. |
| Hashmap.Map.Get | hashmap.c:124-147 | Returns the value of the first entry in the key's bucket that compares equal, or none. Any value returned has `data_size` bytes. |
| Hashmap.Map.Remove | hashmap.c:149-181 | The key's bucket loses its first matching entry. No other bucket changes, and `item_count` does not change. The invariant is kept, with one more removal counted when an entry was unlinked. |
| Hashmap.ReassignSingleKey | hashmap.c:66-181 | On a fresh map, assigning a key twice leaves `map_get` on the first value with `item_count` at 2. After one remove, `map_get` returns the second value. |

## Left out

- Memory ownership is not modelled: `malloc`/`free` of nodes, key and value copies, and the value copy leaked when `map_assign` overwrites a value (hashmap.c:111). Entries hold byte sequences that no one else can alias.
- The chains are sequences of entries, not linked nodes. Pointer aliasing between nodes and `next` links is therefore not modelled. The walks keep the C loops over positions in the sequence.
- `map_destroy` (hashmap.c:183-203) only frees memory, so it is not modelled. hashmap.h:40 declares it as `destroy`, a name the implementation does not define.
- `map_get` returns a pointer into the stored node. The model returns the stored bytes, so a caller writing through that pointer is not modelled.
- Allocation failure is a boolean parameter, because the allocator is outside the model. One flag stands for the three `malloc` calls in `map_assign` (hashmap.c:76-94). On failure the state is unchanged, as in the code; the allocations that did succeed are leaked, which is not modelled.
- Hashmap.MakeMap: one flag covers both allocations of `makemap`. The second check (hashmap.c:54) tests the map pointer again instead of the bucket array, so a failed bucket allocation would be written through. The model treats that case as a failure returning null, which is the evident intent.
- Hashmap.Map.Assign: requires `item_count` below `INT_MAX`, so the signed overflow of `item_count++` (hashmap.c:103, 119), which is undefined in C, is not modelled.
- The stored bucket `hash` (hashmap.c:102) is modelled but never read by any operation, so no property is stated about it beyond its value.
- Hashmap.Map.Assign, Hashmap.Map.Get, Hashmap.Map.Remove: keys and values must have exactly `key_size` and `data_size` bytes. The C code reads that many bytes through `void *` and cannot check the buffer length.
- Fnv.Hash: the C length parameter is an `int` while `key_size` is a `size_t`. The model passes the size unchanged, so a key size beyond `INT_MAX` is not modelled.
