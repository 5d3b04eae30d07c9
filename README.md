# A verified model of the wasmtime table runtime

This project models the runtime representation of WebAssembly tables in
wasmtime (`crates/wasmtime/src/runtime/vm/table.rs`). A table holds one of three
kinds of elements:

- function references ("funcrefs");
- GC references, such as `externref` and `anyref`;
- continuation references.

A table is backed in one of two ways:

- static storage: a fixed buffer owned by the pooling allocator;
- dynamic storage: an owned, growable vector.

The model covers these operations:

- creating a table (`new_dynamic`, `new_static`, `limit_new`);
- the queries `element_type`, `size` and `maximum`;
- bulk initialisation (`init_func`, `init_gc_refs`);
- `fill`, `grow`, `get` and `set`;
- `copy`, with its cross-table and same-table helpers.

Modules:

- `Wrappers`: `Option` and `Result`.
- `Elements`: the element kinds and `TableElement`, the at-rest slot encoding, and `wasm_to_table_type`.
  - Every slot is a raw word (`nat`) whose zero value means "no value".
  - With lazy initialisation, funcref slots set the low address bit (`FUNCREF_INIT_BIT`). A null funcref is then the word `1`, and a slot that was never written (a zero word) reads as `UninitFunc`.
- `Limits`: the host pointer width (`usize`), `usize::try_from`, table types, the resource limiter and `limit_new`.
  - The limiter is an oracle: `growing(old, new, max)` answers allow, deny or fail.
  - A flag says whether `table_grow_failed` reports an error.
- `GcRefs`: the GC store as the table sees it.
  - Its reference counting is modelled by two multisets that only grow: every reference the store has retained, and every reference it has released.
  - `Accounted` is the identity that every write barrier keeps. `Balanced` is the ownership invariant derived from it: every live reference is held either by a table slot or by a caller.
- `Tables`: the `Table` class.
  - It has the fields `kind`, `lazyInit`, `width` and `storage`, the static `size`, and the dynamic `elements`.
  - Static storage is a Dafny `array<nat>` that the table only writes; the table never replaces it.
  - `Valid()` is the table invariant: sizes fit the capacity and the maximum, and a static buffer is zero in `[size, capacity)`.
  - The single-slot writers `WriteSlot`, `WriteGcRef` and `Set` give the new slots as `old(Slots())[i := v]`.
  - Every method that writes a range of existing slots is specified by `Overwrites(old, new, d, vals)`: `vals` is written at offset `d` and every other slot is unchanged. `Splice` is an independent definition of the same thing, and `OverwritesIsSplice` proves that the two agree.
  - `Resize`, `GrowTail` and `Grow` instead give the new slots as the old slots followed by the appended words. The `GcStore` methods change only the store's two multisets.

Properties proved:

- The funcref encoding round-trips in both directions.
- Every bulk operation traps exactly when its range ends past the size, and a trap changes nothing.
- `grow` succeeds, is rejected or errs under exactly the stated conditions. It appends `delta` copies of the init word and nothing else changes.
- `set` followed by `get` returns what was set.
- `copy` gives the destination the source range as it was before the call, including overlapping copies within one table. The GC loops run front-to-back or back-to-front depending on the overlap, so no source slot is overwritten before it is read.
- Every GC write barrier keeps the reference-accounting identity. `fill` consumes the caller's reference exactly once.
- `fill`, `grow` and `copy` keep `Balanced` on a GC table. For `fill` and `grow`, the init reference moves from the callers' share into the slots.

## Model

| member | source | states |
|---|---|---|
| Elements.Matches | crates/wasmtime/src/runtime/vm/table.rs:49-58 | a value matches a kind exactly when its variant is that kind's variant; `UninitFunc` matches no kind |
| Elements.WasmToTableType | crates/wasmtime/src/runtime/vm/table.rs:376-382 | func heap types give func tables, any/extern give GC tables, cont gives continuation tables, each an if-and-only-if |
| Elements.EncodeFuncRef | crates/wasmtime/src/runtime/vm/table.rs:152-167 | decoding the encoded funcref gives the same funcref back; with lazy init the word is odd and never zero; without it the word is the raw pointer |
| Elements.DecodeFuncRef | crates/wasmtime/src/runtime/vm/table.rs:169-182 | the result is `UninitFunc` exactly for a zero slot of a lazy table; otherwise it is a funcref with the tag bit masked off, which is null or a valid address |
| Elements.FuncRefWordRoundTrip | crates/wasmtime/src/runtime/vm/table.rs:152-182 | a word a funcref table can hold, once decoded to a funcref, re-encodes to the same word |
| Elements.SetInitBit | crates/wasmtime/src/runtime/vm/table.rs:160 | `a` with `FUNCREF_INIT_BIT` or-ed in: the result is odd and has the same address bits above the tag bit |
| Elements.ClearInitBit | crates/wasmtime/src/runtime/vm/table.rs:179 | `a & FUNCREF_MASK`: the result is even, no larger than `a`, and has the same address bits above the tag bit |
| Elements.HandleOf | crates/wasmtime/src/runtime/vm/table.rs:296-302 | the zero word is no handle; any other word is itself as a non-zero handle |
| Elements.EncodeElement | crates/wasmtime/src/runtime/vm/table.rs:884-903 | the word `set` or `fill` stores decodes back to the element (`UninitFunc` reads back as a null funcref in a non-lazy table); the word is zero exactly for the empty values |
| Elements.DecodeSlot | crates/wasmtime/src/runtime/vm/table.rs:848-872 | what `get` returns is well-formed; it is `UninitFunc` exactly for a zero word of a lazy func table, and otherwise matches the table's kind |
| Limits.UsizeMax | crates/wasmtime/src/runtime/vm/table.rs:536 | `usize::MAX` is between `u32::MAX` and `u64::MAX` |
| Limits.ToUsize | crates/wasmtime/src/runtime/vm/table.rs:633 | `usize::try_from` succeeds exactly when the value fits the host width, and then keeps it |
| Limits.DeclaredMaximum | crates/wasmtime/src/runtime/vm/table.rs:546-550 | the declared maximum, or `None` (unbounded) when it does not fit in `usize`; with none declared, `u32::MAX` for 32-bit indices and, for 64-bit indices, `u64::MAX` on a 64-bit host and `None` on a 32-bit host |
| Limits.LimitNew | crates/wasmtime/src/runtime/vm/table.rs:530-569 | succeeds exactly when the minimum fits in `usize` and the limiter allows growing from 0 to it, returning (minimum, derived maximum); it is a limiter error exactly when the limiter fails |
| Limits.LimitNewMinimumWithinMaximum | crates/wasmtime/src/runtime/vm/table.rs:530-569 | for a validated table type, the minimum `limit_new` returns never exceeds the maximum it returns |
| GcRefs.RefsConcat | crates/wasmtime/src/runtime/vm/table.rs:296-302 | proof helper over the `Option<VMGcRef>` slot vector: the references held by two slot ranges together are the union of each range's references |
| GcRefs.RefsZeros | crates/wasmtime/src/runtime/vm/table.rs:394-421 | zeroed slots hold no references |
| GcRefs.RefsUpdate | crates/wasmtime/src/runtime/vm/table.rs:1122-1125 | overwriting a slot removes the old occupant's reference and adds the new one's |
| GcRefs.AccountedStep | crates/wasmtime/src/runtime/vm/table.rs:1122-1125 | a write barrier followed by the slot store keeps the accounting identity between the store and the slots |
| GcRefs.AccountedDrop | crates/wasmtime/src/runtime/vm/table.rs:713-719 | after the barrier writes, dropping the caller's reference is accounted as that reference being consumed |
| GcRefs.AccountedKeepsBalance | crates/wasmtime/src/runtime/vm/table.rs:1161-1179 | an accounted change (a copy) keeps every live reference held by a slot or a caller, with the callers' share unchanged |
| GcRefs.ConsumingKeepsBalance | crates/wasmtime/src/runtime/vm/table.rs:693-720 | after `fill`, the balance holds with the caller's init reference moved into the filled slots |
| GcRefs.GcStore.CloneGcRef | crates/wasmtime/src/runtime/vm/table.rs:858-861 | `clone_gc_ref` returns the same handle and retains it once more |
| GcRefs.GcStore.DropGcRef | crates/wasmtime/src/runtime/vm/table.rs:714-717 | `drop_gc_ref` releases the caller's reference once |
| GcRefs.GcStore.WriteBarrier | crates/wasmtime/src/runtime/vm/table.rs:703 | `write_gc_ref` retains the incoming reference, releases the slot's occupant and stores the incoming one |
| Tables.Splice | crates/wasmtime/src/runtime/vm/table.rs:1107-1112 | the splice of `vals` at `d` overwrites exactly `[d, d + len)` with `vals` |
| Tables.OverwritesIsSplice | crates/wasmtime/src/runtime/vm/table.rs:1107-1112 | the pointwise overwrite specification determines the new slots: they are the splice |
| Tables.EncodeFuncRefs | crates/wasmtime/src/runtime/vm/table.rs:641-643 | each word written by `init_func` decodes to the corresponding item |
| Tables.GcRefWords | crates/wasmtime/src/runtime/vm/table.rs:663-665 | each word written by `init_gc_refs` is the corresponding item's handle |
| Tables.Table.ElementType | crates/wasmtime/src/runtime/vm/table.rs:572-584 | the element kind, fixed when the table was created |
| Tables.Table.Size | crates/wasmtime/src/runtime/vm/table.rs:593-604 | the `size` field of a static table, the vector length of a dynamic one |
| Tables.Table.Maximum | crates/wasmtime/src/runtime/vm/table.rs:612-621 | a static table's capacity (the length of its buffer slice), a dynamic table's declared maximum |
| Tables.Table.Slots | crates/wasmtime/src/runtime/vm/table.rs:593-604 | there are exactly `size` slots, taken from the static buffer's prefix or the dynamic vector |
| Tables.Table.ElementAt | crates/wasmtime/src/runtime/vm/table.rs:848-872 | an element exists exactly for in-range indices, and it is well-formed and of the table's kind (or `UninitFunc`) |
| Tables.Table.SizeWithinMaximum | crates/wasmtime/src/runtime/vm/table.rs:593-621 | the size fits in `usize` and within `maximum`, and a static table's maximum is its capacity |
| Tables.Table.Dynamic | crates/wasmtime/src/runtime/vm/table.rs:425-446 | a dynamic table of `minimum` empty slots with the given maximum; only func tables are lazily initialised |
| Tables.Table.Static | crates/wasmtime/src/runtime/vm/table.rs:449-525 | a static table over the zeroed buffer's first `capacity` words with `minimum` empty slots |
| Tables.Table.WriteSlot | crates/wasmtime/src/runtime/vm/table.rs:886-899 | the single-slot store of `set`: only slot `i` changes, to `v` |
| Tables.Table.WriteRange | crates/wasmtime/src/runtime/vm/table.rs:1107-1112 | writes `vals` into `[d, d + len)` and leaves every other slot unchanged |
| Tables.Table.WriteGcRef | crates/wasmtime/src/runtime/vm/table.rs:1122-1125 | one barrier write: the slot gets the incoming word and the accounting identity is kept |
| Tables.Table.WriteGcRefRange | crates/wasmtime/src/runtime/vm/table.rs:1120-1126 | writes `vals` through barriers into `[d, d + len)`, nothing else changes, and the result is accounted |
| Tables.Table.Fill | crates/wasmtime/src/runtime/vm/table.rs:677-732 | traps exactly when `dst + len` exceeds the size, changing nothing; otherwise writes the element's word `len` times from `dst`; the store changes only for GC tables, where the init reference is consumed and `Balanced` is kept with that reference moved from the callers into the slots |
| Tables.Table.InitFunc | crates/wasmtime/src/runtime/vm/table.rs:628-645 | traps exactly when `dst + len(items)` exceeds the size, changing nothing; otherwise writes each item's funcref encoding from `dst` |
| Tables.Table.InitGcRefs | crates/wasmtime/src/runtime/vm/table.rs:650-667 | traps exactly when `dst + len(items)` exceeds the size, changing nothing; otherwise stores the items' raw handles from `dst`, with no barrier |
| Tables.Table.Get | crates/wasmtime/src/runtime/vm/table.rs:848-872 | returns the decoded slot, or none out of range; a GC reference is retained once more for the caller, and nothing else changes the store |
| Tables.Table.Set | crates/wasmtime/src/runtime/vm/table.rs:884-903 | fails exactly out of range, changing nothing; otherwise only the slot changes, and `get` then returns the element set |
| Tables.Table.Resize | crates/wasmtime/src/runtime/vm/table.rs:793-829 | the slots become the old slots followed by zeros up to the new size, without writing a static buffer |
| Tables.Table.Grow | crates/wasmtime/src/runtime/vm/table.rs:754-841 | returns the old size exactly when `delta` is zero or every check passes, and then appends `delta` init words; error cases raise the out-of-bounds error or the limiter's error; a rejection changes nothing; a successful GC grow keeps `Balanced` with the init reference moved into the new slots |
| Tables.Table.GrowTail | crates/wasmtime/src/runtime/vm/table.rs:793-838 | resizing and then filling the new tail gives the old slots followed by `delta` init words, accounted for GC tables |
| Tables.Table.CopyElementsWithin | crates/wasmtime/src/runtime/vm/table.rs:1136-1186 | the destination range receives the source range as it was before the call, even when the ranges overlap; equal starts change nothing; GC copies are accounted |
| Tables.Table.CopyGcRefsForward | crates/wasmtime/src/runtime/vm/table.rs:1164-1171 | the front-to-back barrier loop for `d < s` copies the original source words |
| Tables.Table.CopyGcRefsBackward | crates/wasmtime/src/runtime/vm/table.rs:1172-1179 | the back-to-front barrier loop for `s < d` copies the original source words |
| Tables.Table.NewDynamic | crates/wasmtime/src/runtime/vm/table.rs:425-446 | fails exactly when `limit_new` fails, with its error; otherwise a fresh, valid dynamic table of the type's kind with `minimum` empty slots and the derived maximum |
| Tables.Table.NewStatic | crates/wasmtime/src/runtime/vm/table.rs:449-525 | fails when `limit_new` fails or the minimum exceeds the buffer; otherwise a fresh static table whose capacity is `min(buffer length, maximum)`, with `minimum` empty slots |
| Tables.Table.CopyElements | crates/wasmtime/src/runtime/vm/table.rs:1094-1134 | between different tables, the destination range receives the source range and no other slot changes; GC copies are accounted |
| Tables.Table.Copy | crates/wasmtime/src/runtime/vm/table.rs:911-951 | traps exactly when either range ends past its table's size, changing nothing; otherwise the destination range receives the original source range and a distinct source table is unchanged; a GC copy keeps `Balanced` for the destination |
| Tables.Table.CopyRanges | crates/wasmtime/src/runtime/vm/table.rs:940-948 | dispatches on table identity and gives the same result as a copy through a temporary buffer, keeping `Balanced` for a GC destination |
| Tables.CopyInBounds | crates/wasmtime/src/runtime/vm/table.rs:920-932 | the range check of `copy` passes exactly when both `index + len` end within their table's size |

## Left out

- Allocation of dynamic element vectors (`alloc_dynamic_table_elements`): allocation failure and raw zeroed allocation are not modelled. A new dynamic table is simply `minimum` zero words.
- `new_static`'s alignment checks (`align_to` with empty prefix and suffix): the buffer is modelled as an array of whole slot words. The buffer is required to be zeroed, which the pooling allocator provides.
- The `gc_store = None` fallback for i31 references in `fill` and `get`: the model always has a GC store.
- The GC store itself is not part of this model. Only the retain/release effect of `write_gc_ref`, `clone_gc_ref` and `drop_gc_ref` is modelled.
- `element_size`, `NOMINAL_MAX_TABLE_ELEM_SIZE`, `vmtable`, `is_static`, `Default`, and the `Send`/`Sync` implementations: they concern layout, raw pointers or trait plumbing, not table behaviour.
- The `into_func_ref_asserting_initialized` and `is_uninit` helpers, and the `From` conversions: they are trivial case analyses. The model uses the variants directly.
- Panics and debug assertions become preconditions:
  - matching element kinds in `set`, `fill` and `copy`;
  - a func table in `init_func` and a GC table in `init_gc_refs`, which `funcrefs_mut` and `gc_refs_mut` assert;
  - the same lazy-init flag for two func tables in `copy`, since the flag comes from the engine-wide `table_lazy_init` setting;
  - distinct tables in `copy_elements`;
  - a present GC store in `copy_elements` and `copy_elements_within` for GC tables, which both `unwrap` (table.rs:1120, table.rs:1160);
  - zeroed static slots past the size, in `grow`.
- Tables.Table.Grow: its precondition admits every storable init value, including `UninitFunc`. The source's debug assertion on `type_matches` is not imposed.
- Tables.Table.NewDynamic and Tables.Table.NewStatic: both require `ValidTableType` (minimum at most the maximum, both within the index type's bound). `limit_new` does not check this; the module validation of its callers guarantees it, and without it a new table would break `size <= maximum`.
- Addresses and handles are unbounded naturals. Pointer provenance and the machine width of a slot are not modelled. Index and size arithmetic is checked against `usize::MAX` of the chosen host width.
- Tables.Table.CopyElements: it reads the source range into a sequence and then writes it. The source reads each word just before writing it. The two are the same because the tables are distinct.
- On `grow`'s paths that do not grow (zero `delta`, a rejection, an error), the source drops the caller's GC init reference without `drop_gc_ref`. The model's `Grow` leaves the store unchanged on those paths, which matches the source.
- `Valid()` does not carry the funcref tag invariant (every slot of a lazy table is zero or odd, every slot of a non-lazy one is even). `FuncRefWordRoundTrip` is stated over words rather than over a table's slots.
- `store.table_growing` and `store.table_grow_failed` are modelled as the limiter oracle. Their error messages are not modelled.
- The `winch` assembler file in the repository is not part of this model.
