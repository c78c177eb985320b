# PrcKeyRegistry, modelled in Dafny

Panda3D's `PrcKeyRegistry` (dtool/src/prc/prcKeyRegistry.cxx) is the process-wide
table of public keys used to validate signed `.prc` configuration files. It maps small
indices to slots. Each slot holds three things:

- a reference to a statically allocated `KeyDef` (PEM text plus a baked-in timestamp);
- a lazily parsed OpenSSL `EVP_PKEY` handle;
- a generation timestamp.

The registry has these operations:

- `record_keys` merges a compiled-in key table into the slots.
- `set_key` pins an explicitly built handle into a slot and takes ownership of it.
- `get_num_keys` returns the vector's length, holes included.
- `get_key` parses a slot's definition on first use and caches the handle.
- `get_generated_time` reads a slot's timestamp.
- `get_global_ptr` creates the single instance on first call.

The project has two files:

- `key_slots.dfy` (module `KeySlots`) is the value-level model. It defines `KeyDef` as a
  class, so that identity is the pointer comparison of the source. It defines `PKey`
  for `EVP_PKEY`, the `Slot` datatype and the state each operation produces
  (`Grown`, `Recorded`, `Pinned`, `Materialize`). It also defines the handles each
  operation releases (`Evicted`, `EvictedByPin`) and the registry's ownership
  invariant `Consistent`. The lemmas state the operations' properties against these
  definitions. `ExpectedSlot` is a slot-by-slot reference definition of `record_keys`.
- `key_registry.dfy` (module `KeyRegistry`) holds the class `PrcKeyRegistry`. Its
  `keys: seq<Slot>` field is the `_keys` vector. Its methods keep the source's "grow
  to index" loops and slot assignments, and each is proved against the value-level
  definitions. Two ghost logs record the foreign calls: `released` lists every handle
  given to `EVP_PKEY_free`, and `parsed` lists every definition given to
  `PEM_read_bio_PUBKEY`. The class `Globals` holds the static `_global_ptr`.

The key-parsing service is a parameter of `GetKey`. `accepts` is the service's verdict
on a definition's bytes. On success the model allocates a new `PKey`, as
`PEM_read_bio_PUBKEY` allocates a new key.

The ownership invariant (`Consistent`) has four parts:

- a slot that names a definition names one with data and carries its timestamp;
- no two slots hold the same handle;
- no held handle has been freed;
- no handle is freed twice.

`RecordKeys`, `SetKey` and `GetKey` all preserve it.

After a parse failure, `get_key` clears only the slot's definition (lines 131-134).
The timestamp is kept: `get_generated_time` then returns the definition's timestamp;
it is not reset to 0. This contradicts the source's own comment at lines 142-143 ("or
0 if the key is not defined"); the model follows the code. `RejectedKey` and
`Materialize` state this.

## Model

| member | source | states |
|---|---|---|
| KeySlots.KeyDef.constructor | dtool/src/prc/prcKeyRegistry.cxx:58-68 | a key definition is an object with its byte data (None for a null `_data`) and baked-in timestamp; slots compare definitions by identity, as the pointer test at line 68 does |
| KeySlots.Consistent | dtool/src/prc/prcKeyRegistry.cxx:81-84 | the ownership invariant: a slot's definition has data and carries its timestamp, no two slots hold one handle, no held handle has been freed, and no handle is freed twice |
| KeySlots.Grown | dtool/src/prc/prcKeyRegistry.cxx:61-67 | growing to index i gives max(size, i + 1) slots, keeps every old slot and makes every new slot `{null, null, 0}` |
| KeySlots.RecordOne | dtool/src/prc/prcKeyRegistry.cxx:58-75 | one iteration of record_keys: a null-data entry leaves the vector as it is; otherwise the vector reaches index i, and slot i is kept if it already refers to the identical def and becomes `{def, null, def time}` otherwise |
| KeySlots.RecordOneElsewhere | dtool/src/prc/prcKeyRegistry.cxx:61-75 | one iteration of record_keys touches only slot i: every other slot keeps its value, or is empty if the vector only now reaches it |
| KeySlots.Recorded | dtool/src/prc/prcKeyRegistry.cxx:57-77 | the vector after the first k iterations of record_keys' loop; it never shrinks and grows to at most max(old size, k) |
| KeySlots.EvictedAt | dtool/src/prc/prcKeyRegistry.cxx:68-72 | the handle one iteration frees: at most one, and only the cached handle of slot i when the entry has data and a different identity |
| KeySlots.Evicted | dtool/src/prc/prcKeyRegistry.cxx:57-77 | the handles the first k iterations free, in order: at most one per iteration, so at most k (which handles they are is stated by `EvictedMembers`) |
| KeySlots.ExpectedSlot | dtool/src/prc/prcKeyRegistry.cxx:57-75 | the slot-by-slot reference for record_keys: an index below k with data ends referring to its entry's def, and a slot that ends with a handle is the old slot unchanged |
| KeySlots.Reach | dtool/src/prc/prcKeyRegistry.cxx:57-61 | the size record_keys grows to: 1 + the highest index below num_keys whose entry has data (0 if none), every entry above it having null data |
| KeySlots.RecordedMatchesReference | dtool/src/prc/prcKeyRegistry.cxx:55-78 | after record_keys the size is max(old size, Reach) and every slot equals the slot-by-slot reference: an entry with data installs `{def, null, def time}` unless the slot already refers to that very def; null-data entries and indices at or past num_keys leave the slot as it was |
| KeySlots.UntouchedSlot | dtool/src/prc/prcKeyRegistry.cxx:57-59 | slots at or beyond the part of the table already merged are unchanged (or empty if new) and never lost |
| KeySlots.RecordStepEvicts | dtool/src/prc/prcKeyRegistry.cxx:68-72 | the handle iteration i frees from the vector built so far is the one it would free from the original vector, since no earlier iteration touched slot i |
| KeySlots.EvictedMembers | dtool/src/prc/prcKeyRegistry.cxx:68-72 | a handle is freed by record_keys if and only if a slot below num_keys held it and that slot's entry has data and a different identity |
| KeySlots.EvictedDistinct | dtool/src/prc/prcKeyRegistry.cxx:68-72 | when no two slots share a handle, record_keys frees each handle at most once |
| KeySlots.RecordPreservesConsistent | dtool/src/prc/prcKeyRegistry.cxx:56-78 | record_keys keeps the ownership invariant, with the freed log extended by exactly the evicted handles |
| KeySlots.RecordFixedPoint | dtool/src/prc/prcKeyRegistry.cxx:68 | when every slot below k already refers to its entry's def, record_keys changes nothing and frees nothing |
| KeySlots.RecordIdempotent | dtool/src/prc/prcKeyRegistry.cxx:68 | record_keys twice with the same table equals once, and the second call frees nothing (identity check keeps the cache) |
| KeySlots.SparseImport | dtool/src/prc/prcKeyRegistry.cxx:57-74 | importing entries with data only at 0 and 5 into an empty registry gives 6 slots, slots 0 and 5 holding their defs and timestamps, slots 1 to 4 empty |
| KeySlots.Pinned | dtool/src/prc/prcKeyRegistry.cxx:86-103 | after set_key(n, p, t) the size is max(size, n + 1), slot n is `{null, p, t}`, every other old slot is unchanged and every new slot is empty |
| KeySlots.EvictedByPin | dtool/src/prc/prcKeyRegistry.cxx:97-100 | set_key frees nothing exactly when slot n does not exist or holds no handle, and otherwise frees that one handle |
| KeySlots.PinPreservesConsistent | dtool/src/prc/prcKeyRegistry.cxx:96-102 | set_key with a handle nobody else owns keeps the ownership invariant, freeing exactly slot n's previous handle |
| KeySlots.PinningHeldHandleFreesIt | dtool/src/prc/prcKeyRegistry.cxx:97-101 | set_key with the handle slot n already holds frees it and stores it again, which breaks the ownership invariant |
| KeySlots.NeedsParse | dtool/src/prc/prcKeyRegistry.cxx:122-123 | get_key parses exactly when the slot has a def and no cached handle |
| KeySlots.Materialize | dtool/src/prc/prcKeyRegistry.cxx:122-138 | get_key leaves the timestamp alone; a slot with a cached handle or no definition is unchanged; a slot needing a parse ends with the parse result as handle and, on failure, with no definition; afterwards no slot needs a parse |
| KeySlots.MaterializeSettles | dtool/src/prc/prcKeyRegistry.cxx:122-138 | a second get_key on a slot changes nothing and returns the same handle, whatever the parser would answer |
| KeyRegistry.PrcKeyRegistry.Valid | dtool/src/prc/prcKeyRegistry.cxx:81-84 | the registry's slots and freed log satisfy the ownership invariant `Consistent` |
| KeyRegistry.PrcKeyRegistry.constructor | dtool/src/prc/prcKeyRegistry.cxx:34-36 | a new registry has no slots and satisfies the ownership invariant |
| KeyRegistry.PrcKeyRegistry.RecordKeys | dtool/src/prc/prcKeyRegistry.cxx:55-78 | the slots become `Recorded(old slots, table, num_keys)`, the freed log grows by `Evicted`, nothing is parsed, and the invariant holds |
| KeyRegistry.PrcKeyRegistry.RecordEntry | dtool/src/prc/prcKeyRegistry.cxx:59-76 | the loop body for an entry with data: the slots become `RecordOne(old slots, def, i)`, the freed log grows by `EvictedAt` (slot i's old handle when its def changes), and nothing is parsed |
| KeyRegistry.PrcKeyRegistry.GrowTo | dtool/src/prc/prcKeyRegistry.cxx:61-67 | the grow loop of record_keys and set_key (also lines 89-95): the slots become `Grown(old slots, i)`, and nothing is freed or parsed |
| KeyRegistry.PrcKeyRegistry.SetKey | dtool/src/prc/prcKeyRegistry.cxx:86-103 | the slots become `Pinned(old slots, n, p, t)`, the freed log grows by slot n's old handle if any, nothing is parsed, and the invariant holds |
| KeyRegistry.PrcKeyRegistry.NumKeys | dtool/src/prc/prcKeyRegistry.cxx:110-113 | the count is the length of the slot vector (highest touched index + 1, holes included) |
| KeyRegistry.PrcKeyRegistry.GetKey | dtool/src/prc/prcKeyRegistry.cxx:118-139 | out of range gives null with no change; otherwise slot n becomes `Materialize(old slot, result)` and the result is slot n's handle; a parse happens exactly when the slot has a def and no handle, and then succeeds exactly when the service accepts the bytes, giving a fresh handle; nothing is freed |
| KeyRegistry.PrcKeyRegistry.GeneratedTime | dtool/src/prc/prcKeyRegistry.cxx:145-150 | the timestamp stored in slot n, or 0 out of range |
| KeyRegistry.Globals.constructor | dtool/src/prc/prcKeyRegistry.cxx:28 | the global pointer starts out null |
| KeyRegistry.Globals.GetGlobalPtr | dtool/src/prc/prcKeyRegistry.cxx:155-161 | returns the existing instance if there is one, otherwise a fresh empty registry, and stores what it returns |
| KeyRegistry.GlobalPtrIsStable | dtool/src/prc/prcKeyRegistry.cxx:155-161 | two calls return the same instance |
| KeyRegistry.GetKeyTwice | dtool/src/prc/prcKeyRegistry.cxx:122-138 | two get_key calls on one index return the identical handle and parse at most once |
| KeyRegistry.ImportOneKey | dtool/src/prc/prcKeyRegistry.cxx:118-139 | importing one parseable key into a fresh registry gives one slot with the def's timestamp, and get_key returns the same non-null handle twice |
| KeyRegistry.PinThenFetch | dtool/src/prc/prcKeyRegistry.cxx:86-103 | after set_key(3, h, t), get_key(3) returns h itself without parsing and get_generated_time(3) is t |
| KeyRegistry.ReplaceDefinition | dtool/src/prc/prcKeyRegistry.cxx:68-75 | importing a new identity over a cached handle frees that handle, and the next get_key parses the new def (once) and does not return the stale handle |
| KeyRegistry.ReimportKeepsCache | dtool/src/prc/prcKeyRegistry.cxx:68 | import, get_key, same import again: the second import frees nothing and get_key returns the same non-null handle |
| KeyRegistry.RejectedKey | dtool/src/prc/prcKeyRegistry.cxx:131-134 | for bytes the parser rejects, get_key returns null twice, parses once, and leaves the slot `{null, null, old timestamp}` |

## Left out

- OpenSSL internals (`BIO_new_mem_buf`, `PEM_read_bio_PUBKEY`, `BIO_free`, `EVP_PKEY_free`) are foreign calls. Parsing is the `accepts` parameter plus a fresh allocation. Freeing is the ghost `released` log. The PEM text format (RFC 7468) is not modelled.
- `KeyDef::_length` is the length of the modelled byte sequence; the raw pointer/length pair is not modelled separately.
- The `nassertr` guards at lines 120 and 147 are modelled by their fallback return values (null, 0). The error report the assertion prints is I/O and is left out. In builds that compile assertions out, an out-of-range index is undefined behaviour, which the model does not represent.
- SetKey: requires that the handle given is owned by nobody else, meaning no slot holds it and it has not been freed. The source states this ownership transfer only in its comment (lines 81-84). Passing the handle slot n already holds is a use-after-free, shown by `PinningHeldHandleFreesIt`.
- RecordKeys and SetKey: indices are unbounded `nat` and the `seq` always grows. In the source, `i`, `n` and `num_keys` are `size_t`, and `push_back` in the grow loops (lines 61-66, 89-94) can throw `bad_alloc` or `length_error` for a huge index; with `n == SIZE_MAX` the loop at line 89 cannot end normally. The model does not capture these failures.
- The destructor's error message (lines 41-45) is a diagnostic, and the `HAVE_OPENSSL` conditional is build plumbing.
- Thread safety of the singleton and of the lazy cache is not modelled. The source has no synchronisation, and the model is sequential.
- Real timestamps are `time_t`. The model uses unbounded `int`, which is safe because no arithmetic is done on them.
- panda/src/pipeline/genericThread.h (a thread wrapper) and panda/src/express/p3express_composite1.cxx (build aggregation) have no registry logic and are not part of this model.
