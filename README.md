# ArangoDB core pieces in Dafny: option translation, the AQL block pool and cache findings

This project models three small, self-contained parts of the ArangoDB server
and proves what each promises.

- **Option-value translation** (`lib/ProgramOptions/Translator.cpp`).
  - `DefineEnvironment` takes a comma-separated `key=value` list and stores
    each pair in a process-wide map (`translator.dfy`, class
    `Translator.Translator`).
  - `EnvironmentTranslator` rewrites a configuration value:
    - `@@` becomes a literal `@`;
    - `@NAME@` becomes the process environment's value of `NAME` when that is
      set and non-empty, else the value `DefineEnvironment` stored, else
      nothing;
    - an `@` with no closing `@` copies the rest of the value, up to its
      first NUL.
  - Both are loops over the input, proved against the specification
    functions `ApplyItems` and `Translate`. `Translate` is an
    accumulator-style scan (`Scan`) that reads the value left to right as the
    loop does.
  - C strings are read up to their first NUL (`Strings.CStr`, in
    `strings.dfy`) wherever the code goes through a `char const*`.
- **The AQL item-block pool** (`arangod/Aql/AqlItemBlockManager.cpp`,
  `item_block_manager.dfy`).
  - Spare blocks sit in one bounded stack per size class.
  - `RequestBlock` reuses a block from the requested size class or the next
    larger one and otherwise allocates a new one.
  - `ReturnBlock` stacks a block unless its stack is full, and always clears
    the caller's pointer.
  - The classes keep the source's fixed slot arrays. A ghost `Pool` (one
    sequence per bucket) ties them to pure transition functions
    `AfterRequest` and `AfterReturn`, and the lemmas are stated over those
    functions.
- **Cache findings** (`arangod/Cache/Cache.cpp`, `cache_finding.dfy`).
  - A `Finding` takes one lease on the value it was given and gives it back
    when it is destroyed.
  - `Found`, `Value` and `Copy` are read-only queries.

## Model

| member | source | states |
|---|---|---|
| Strings.CStr | lib/ProgramOptions/Translator.cpp:113 | Reading a string as a C string yields its longest NUL-free prefix; a NUL-free string is read whole |
| Strings.IndexOf | lib/ProgramOptions/Translator.cpp:40 | `find_first_of`: the result is the first position holding the character, or the length exactly when the character does not occur |
| Translator.SplitList | lib/ProgramOptions/Translator.cpp:34 | Splitting at `,` gives items that hold no `,`; there are no items exactly when the list is empty |
| Translator.JoinSplit | lib/ProgramOptions/Translator.cpp:34 | Splitting loses nothing: the items joined with `,` give back the list |
| Translator.SplitJoin | lib/ProgramOptions/Translator.cpp:34 | Comma-free items joined with `,` split back into the same items |
| Translator.SplitKeyValue | lib/ProgramOptions/Translator.cpp:40-46 | An item splits at its first `=`: the key holds no `=`, `key=value` rebuilds the item, and an item with no `=` is all key with an empty value |
| Translator.KeyValueRoundTrip | lib/ProgramOptions/Translator.cpp:40-46 | `key=value` with an `=`-free key splits back into exactly that key and value, however many `=` the value holds |
| Translator.LastValue | lib/ProgramOptions/Translator.cpp:36-50 | The last value given to a key: none exactly when no item names the key, otherwise the value of an item naming the key after which no item names it |
| Translator.ApplyItemsLookup | lib/ProgramOptions/Translator.cpp:36-50 | After the list is applied, a key takes the value of the last item naming it; a key no item names keeps its presence and value |
| Translator.Translator.constructor | lib/ProgramOptions/Translator.cpp:29-31 | The process-wide map starts out empty |
| Translator.Translator.DefineEnvironment | lib/ProgramOptions/Translator.cpp:33-51 | The new map is the old one with every item of the list applied in order |
| Translator.LookupPrecedence | lib/ProgramOptions/Translator.cpp:77-111 | For NUL-free names and values: a non-empty environment value wins, else the defined value, else the empty string |
| Translator.Translator.Resolve | lib/ProgramOptions/Translator.cpp:77-111 | The replacement the loop computes for one name equals the lookup the specification defines |
| Translator.Translator.EnvironmentTranslator | lib/ProgramOptions/Translator.cpp:53-122 | The output is the translation of the value under the current map and environment; an empty value is returned as it is |
| Translator.NoAtIdentity | lib/ProgramOptions/Translator.cpp:116-118 | A value without `@` translates to itself |
| Translator.TranslateLiteral | lib/ProgramOptions/Translator.cpp:116-118 | An `@`-free prefix is copied to the output unchanged, ahead of the translation of the rest |
| Translator.TranslateEscapedAt | lib/ProgramOptions/Translator.cpp:65-69 | `@@` produces exactly one `@`, and translation continues after it |
| Translator.TranslateSubstitution | lib/ProgramOptions/Translator.cpp:71-111 | `@NAME@` with a non-empty, `@`-free name is replaced by the lookup of `NAME`, and translation continues after the closing `@` |
| Translator.TranslateUnterminated | lib/ProgramOptions/Translator.cpp:112-114 | An `@` never closed copies itself and the rest of the value up to the first NUL, so a NUL-free tail comes out unchanged |
| Translator.EscapeRoundTrip | lib/ProgramOptions/Translator.cpp:64-119 | A string with every `@` doubled translates back to exactly that string, whatever the environments hold |
| ItemBlocks.Source | arangod/Aql/AqlItemBlockManager.cpp:43-60 | The bucket a request takes from is its own size class or the next one, exists and is non-empty; the next one is used only when the own one is empty; there is none exactly when both inspected buckets are empty or absent |
| ItemBlocks.RequestTakesOne | arangod/Aql/AqlItemBlockManager.cpp:48-64 | A request that finds a block removes exactly one spare block, and every other bucket is unchanged; one that finds none changes no bucket |
| ItemBlocks.ReturnAddsOne | arangod/Aql/AqlItemBlockManager.cpp:80-92 | Returning to a bucket with room adds exactly one spare block; returning to a full bucket leaves the pool as it was |
| ItemBlocks.BoundedPreserved | arangod/Aql/AqlItemBlockManager.cpp:80-92 | Neither a request nor a return lets a bucket hold more than its capacity |
| ItemBlocks.ReturnThenRequest | arangod/Aql/AqlItemBlockManager.cpp:43-92 | A block returned to a bucket with room is the block the next request of that size class gets, and the pool is then as it was |
| ItemBlocks.AqlItemBlock.constructor | arangod/Aql/AqlItemBlockManager.cpp:62-64 | A new block has the requested dimensions and room for all their values |
| ItemBlocks.AqlItemBlock.Rescale | arangod/Aql/AqlItemBlockManager.cpp:67-70 | A rescaled block has the requested dimensions and room for at least their values |
| ItemBlocks.Bucket.constructor | arangod/Aql/AqlItemBlockManager.cpp:96-100 | Every slot of a new bucket is null, so the bucket is empty |
| ItemBlocks.Bucket.Pop | arangod/Aql/AqlItemBlockManager.cpp:49 | Popping yields the top block and removes exactly it |
| ItemBlocks.Bucket.Push | arangod/Aql/AqlItemBlockManager.cpp:88 | Pushing puts the block on top and keeps the rest |
| ItemBlocks.Bucket.Dispose | arangod/Aql/AqlItemBlockManager.cpp:102-106 | The blocks the destructor deletes are exactly the blocks the bucket holds |
| ItemBlocks.AqlItemBlockManager.constructor | arangod/Aql/AqlItemBlockManager.cpp:30-31 | A new manager holds no spare blocks |
| ItemBlocks.AqlItemBlockManager.PoolBounded | arangod/Aql/AqlItemBlockManager.cpp:80-92 | No bucket ever holds more than `numBlocks` blocks |
| ItemBlocks.AqlItemBlockManager.ReuseBlock | arangod/Aql/AqlItemBlockManager.cpp:49-52 | Reusing a spare block yields the top of that bucket, removes exactly it, and leaves it with the requested dimensions and room for them; no other block changes |
| ItemBlocks.AqlItemBlockManager.RequestBlock | arangod/Aql/AqlItemBlockManager.cpp:37-72 | The block has the requested dimensions and room for them; it is the top of the source bucket, or a new block when there is no source; the pool changes as `AfterRequest` says; every other spare block keeps its dimensions and capacity |
| ItemBlocks.AqlItemBlockManager.ReturnBlock | arangod/Aql/AqlItemBlockManager.cpp:75-94 | The pool changes as `AfterReturn` says (pushed when there is room, discarded otherwise), and the caller's pointer is null |
| CacheFinding.Finding.constructor | arangod/Cache/Cache.cpp:34-38 | The finding holds the given value and took exactly one lease on it; over null it touches nothing |
| CacheFinding.Finding.Dispose | arangod/Cache/Cache.cpp:40-44 | Destruction gives back exactly one lease on the held value, and touches nothing when there is none |
| CacheFinding.Finding.Found | arangod/Cache/Cache.cpp:46 | Something was found exactly when a value is held, and a live finding that found a value holds a lease on it |
| CacheFinding.Finding.Value | arangod/Cache/Cache.cpp:46-48 | The value is non-null exactly when something was found |
| CacheFinding.Finding.Copy | arangod/Cache/Cache.cpp:50-52 | Null when nothing was found; otherwise a new, unleased copy of the held key and value, leaving the held value's leases alone |
| CacheFinding.FindingScope | arangod/Cache/Cache.cpp:34-48 | A finding's lifetime leaves the value's lease count as it was; the finding reports found exactly for a non-null value, and returns that value |

## Left out

- The Windows `ROOTDIR` fallback (lib/ProgramOptions/Translator.cpp:94-106) probes the file system. It is not modelled, and neither is the `binaryPath` parameter, which only that branch uses. An unknown name is replaced by the empty string, as on other platforms.
- The process environment is an input map (`osEnv`), not an operating-system call.
- `StringUtils::split` is not part of this model. It is assumed to split at every `,`, to give no items for an empty list and one item per field otherwise. Its quote-character argument (`'\0'`) is not modelled.
- Translator.SplitJoin: requires the item list not to be the single empty item, because that list joins to the empty string, which splits into no items.
- Translator.LookupPrecedence: stated only for NUL-free names and values. The general case, where the C-string reading truncates, is what `Lookup` defines.
- The `Bucket` header is not part of this model. `NumBuckets`, `NumBlocks` and `Bucket::getId` become the manager's constructor parameters `numBuckets`, `numBlocks` and `getId`, where `getId` is any function into `[0, numBuckets)`. `push`, `pop`, `empty` and `full` are modelled as a stack over the slot array, and a new bucket is assumed to hold no items.
- The `AqlItemBlock` header is not part of this model. A block is modelled by its dimensions and capacity. `eraseAll` and `destroy`, which clear its values, are not modelled because the values are not. `rescale` is assumed to grow the storage when it is too small.
- Deleting a block is not modelled. `Bucket.Dispose` returns the blocks the destructor deletes.
- The `ResourceMonitor` memory accounting behind block allocation is not modelled.
- ItemBlocks.AqlItemBlockManager.RequestBlock: `nrItems * nrRegs` is an unbounded product. The `size_t` overflow of the source (arangod/Aql/AqlItemBlockManager.cpp:40) is not modelled.
- ItemBlocks.AqlItemBlockManager.ReturnBlock: `size * nrRegs` is likewise an unbounded product. The `size_t` overflow at arangod/Aql/AqlItemBlockManager.cpp:80 is not modelled.
- CachedValue's header is not part of this model. A value is modelled as its key bytes, its value bytes and a lease counter.
- CacheFinding.CachedValue.Copy: assumes that a copy starts with no leases. The header that would show this is not part of this model, and the `CacheFinding.Finding.Copy` promise of an unleased copy rests on this assumption.
- CacheFinding.Finding: the implicit copy of a `Finding` is not modelled. The class declares a destructor but no copy constructor (arangod/Cache/Cache.h:41-52), so a copy made by the compiler shares the value without taking a lease and releases it a second time. `lookup` returns a `Finding` by value (arangod/Cache/Cache.h:54). The model's `Finding` cannot be copied, so `CacheFinding.FindingScope` proves lease neutrality only for a finding that is never copied.
- `lease` and `release` are modelled as sequential counter updates, not as atomic operations.
- The pure-virtual `lookup`, `insert`, `remove`, `metadata`, `freeMemory` and `migrate` of `Cache` (arangod/Cache/Cache.h:54-60) have no implementation in the source. They are not modelled, and neither are the table, metadata, manager, migration or quota logic.
- `Found`, `Value` and `Copy` follow the `const` signatures of the `.cpp` file (arangod/Cache/Cache.cpp:46-52), not the non-const declarations in the header.
- The rest of the repository is not part of this model: locking primitives, the JSON declarations, the edge index, replication transactions, the import tool and the recovery tests.
