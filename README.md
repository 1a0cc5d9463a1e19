# mem_dbg: the `mem_size` rules for built-in shapes

This project models the recursive memory-size rules of `mem_dbg`. Each built-in
type implements `MemSize::mem_size(&self, flags)`. The call returns the bytes a
value occupies: its inline layout size plus the heap storage it owns, directly
or through nested containers. The flag `SizeFlags::CAPACITY` selects whether
reserved but unused buffer space is counted.

- `shapes.dfy` (module `Shapes`): the type shapes (`Ty`), the scalar table
  (`Prim`) and `SizeOf`, which stands in for `core::mem::size_of`. `SizeOf` is
  parameterised by a `Layout`: the width of `usize`, the tag overhead of
  `Option<T>` for each `T`, and the inline sizes of the two memory-mapping
  handles. It fixes what Rust guarantees or the rules need: an array `[T; N]` is
  `N * size_of::<T>()`, `PhantomData` is zero-sized, and a reference or box is
  one word, or two words when the referent is `[T]` or `str`.
- `values.dfy` (module `Values`): values of those shapes (`Val`), their type
  (`TypeOf`) and well-formedness (`Wf`). `Wf` holds what the type system and
  the `Vec`/`String` invariants guarantee: every element has the element type,
  and `len <= capacity`.
- `impl_mem_size.dfy` (module `ImplMemSize`): the rules themselves. This is
  `MemSize`, with `SumMem` and `SumExtra` for the `.iter().map(..).sum()`
  traversals.
- `properties.dfy` (module `MemSizeProperties`): what the rules promise, proved
  for all well-formed values and every `Layout`.

Two accounting points matter most:

- **Inline versus out-of-line.** An `Option` payload or an array element
  lives inside its parent's inline bytes, so it adds only its extra bytes:
  `mem_size - size_of::<T>()`. The pointee of a `Box` and the elements of a
  `Vec` or slice live behind a pointer, so they add their full size.
- **No underflow.** `MemSize` returns a `nat`. Its postcondition says that
  a sized, well-formed value never reports less than its inline size. That
  bound is what makes the `usize` subtractions on the `Option` and array
  paths safe.

On arrays, the subtraction cancels exactly against the array's own inline
size. An array therefore reports the sum of its elements' full sizes
(`ArrayIsSumOfElements`).

The slice and `str` rules add `size_of::<usize>()` even when they sit behind a
`Box`, whose fat pointer already holds the length. The model follows the code
here. It proves the consequence: `Box<[T]>` reports exactly what a full
`Vec<T>` of the same elements reports, and `Box<str>` exactly what a full
`String` reports.

`CAPACITY` is passed unchanged into every nested call. `CapacityAddsSlack`
states its whole effect: `Slack` is an independent recursive definition of the
spare bytes, and counting capacity adds exactly that amount.

Each `mem_size` is a pure function of the value and the flags, so two calls on
the same value give the same result by construction.

## Model

| member | source | states |
|---|---|---|
| `ImplMemSize.MemSize` | mem_dbg/src/impl_mem_size.rs:11-138 | The rule for each shape. For every well-formed value of a sized shape, the result is at least `size_of` of its type, so the `usize` subtractions at lines 48 and 58 never underflow. |
| `MemSizeProperties.InlineOnlyExact` | mem_dbg/src/impl_mem_size.rs:11-61 | A value of a shape that owns nothing reports exactly its inline size, whatever its contents and flags. This covers scalars, references, `PhantomData`, mmap handles, and options and arrays of these. In particular, an array of scalars reports `N * size_of::<T>()`. |
| `MemSizeProperties.ReferentNeverCounted` | mem_dbg/src/impl_mem_size.rs:28-40 | `&T` and `&mut T` report one pointer, thin or fat, independent of the referent's contents and of the flags. |
| `MemSizeProperties.OptionAccounting` | mem_dbg/src/impl_mem_size.rs:42-50 | `None` reports exactly `size_of::<Option<T>>()`. `Some(x)` reports that plus `mem_size(x) - size_of::<T>()`, and never less than `None`. |
| `MemSizeProperties.SumExtraCancelsInline` | mem_dbg/src/impl_mem_size.rs:52-61 | The sum of per-element extras plus `N * size_of::<T>()` equals the sum of the elements' full sizes. |
| `MemSizeProperties.ArrayIsSumOfElements` | mem_dbg/src/impl_mem_size.rs:52-61 | An array reports exactly the sum of its elements' full `mem_size`. |
| `MemSizeProperties.ArrayConcat` | mem_dbg/src/impl_mem_size.rs:52-61 | Array sizes add under concatenation, and the empty array reports 0. |
| `MemSizeProperties.VecPush` | mem_dbg/src/impl_mem_size.rs:66-77 | In used-only mode, a push adds the element's full size. In CAPACITY mode, a push into a reserved slot adds only what the element owns beyond its inline size. |
| `MemSizeProperties.EmptyVec` | mem_dbg/src/impl_mem_size.rs:66-77 | An empty `Vec` reports its header in used-only mode. In CAPACITY mode it also reports `capacity * size_of::<T>()`. |
| `MemSizeProperties.VecOfU32Scenario` | mem_dbg/src/impl_mem_size.rs:66-77 | Three `u32`s report header + 12 in both modes at capacity 3. At capacity 10 they report header + 12 + 28 with CAPACITY and header + 12 without. |
| `MemSizeProperties.BoxVersusOption` | mem_dbg/src/impl_mem_size.rs:82-87 | A box reports one word plus the pointee's full size. Out of line it adds exactly `size_of::<T>()` more than `Some` of the same value. |
| `MemSizeProperties.SumMemConcat` | mem_dbg/src/impl_mem_size.rs:92-97 | The element sum of a concatenation is the sum of the element sums. |
| `MemSizeProperties.SliceIsHeaderPlusArray` | mem_dbg/src/impl_mem_size.rs:92-97 | A slice reports `size_of::<usize>()` plus what an array of the same elements reports. An empty slice reports only that word, and joining two slices saves one word. |
| `MemSizeProperties.BoxedSliceMatchesTightVec` | mem_dbg/src/impl_mem_size.rs:82-97 | `Box<[T]>` reports the same as a `Vec<T>` of the same elements with `capacity == len`, in both modes. |
| `MemSizeProperties.PhantomIsZero` | mem_dbg/src/impl_mem_size.rs:99-104 | `PhantomData<T>` reports 0 for every `T` and every flag set. |
| `MemSizeProperties.TextAccounting` | mem_dbg/src/impl_mem_size.rs:106-122 | `str` reports a word plus its length, and `&str` only its fat pointer. `String` reports header + length when used-only and header + capacity under CAPACITY. `Box<str>` equals a full `String`. |
| `MemSizeProperties.MmapHandleOnly` | mem_dbg/src/impl_mem_size.rs:124-138 | `Mmap` and `MmapMut` report their handle size, independent of the mapped length and of the flags. |
| `MemSizeProperties.CapacityAddsSlack` | mem_dbg/src/impl_mem_size.rs:66-122 | CAPACITY adds exactly the spare bytes at every depth: spare `Vec` slots at the element's inline size and spare `String` bytes, but nothing behind a reference. |
| `MemSizeProperties.CapacityNeverSmaller` | mem_dbg/src/impl_mem_size.rs:66-122 | The CAPACITY result is never below the used-only result. |
| `MemSizeProperties.TightModesAgree` | mem_dbg/src/impl_mem_size.rs:66-122 | When every owned `Vec` and `String`, at any depth, has `capacity == len`, the two modes agree. |

## Left out

- How `core::mem::size_of` is computed is left out: alignment, padding and the niche optimisation of `Option`. `SizeOf` takes the platform-dependent parts as `Layout` parameters. `Vec` and `String` headers are taken as three words each.
- `MemSize`: sizes are unbounded naturals, so `usize` overflow of the accumulated sums is not modelled.
- Only the `CAPACITY` bit of `SizeFlags` is modelled, because it is the only bit these rules read. The `MemSize` trait declaration, the `SizeFlags` type, the derive macros and the pretty-printer are not part of this model.
- The `impl_memory_size!` macro mechanics, `#[inline(always)]` and the `#[cfg(feature = ...)]` gating are compile-time concerns with no behaviour. Every rule is modelled as always present.
- `f32`/`f64` and the other scalars carry an opaque value. Only their fixed sizes matter, so no float arithmetic is modelled.
- The `mmap_rs` handles are opaque: only their inline handle size is modelled, and the mapped length is carried but never counted.
- Trait-object referents (`&dyn Trait`, `Box<dyn Trait>`) are not shapes of this model. `[T]` and `str` are its only unsized shapes.
