/** Type shapes and their inline sizes.

    This module stands in for `core::mem::size_of`: it gives every type shape
    that the memory-size rules handle an inline size, parameterised by the
    platform facts those rules never inspect (pointer width, the tag overhead
    of `Option`, the handle sizes of the memory-mapping types). */
module Shapes {

  /** The fixed-layout scalar types of the `impl_memory_size!` table. */
  datatype Prim =
    | Unit | Bool | Char | F32 | F64
    | U8 | U16 | U32 | U64 | U128 | Usize
    | I8 | I16 | I32 | I64 | I128 | Isize

  /** The built-in type shapes that have a memory-size rule. */
  datatype Ty =
    | Scalar(prim: Prim)
    | Ref(referent: Ty)          // &T
    | RefMut(referent: Ty)       // &mut T
    | Opt(elem: Ty)              // Option<T>
    | Arr(elem: Ty, n: nat)      // [T; N]
    | Vec(elem: Ty)              // Vec<T>
    | Box(elem: Ty)              // Box<T>
    | Slice(elem: Ty)            // [T]
    | Str                        // str
    | String                     // String
    | Phantom(elem: Ty)          // PhantomData<T>
    | Mmap                       // mmap_rs::Mmap
    | MmapMut                    // mmap_rs::MmapMut

  /** `[T]` and `str` are the dynamically sized shapes: `size_of` is not
      defined for them, and a pointer to them carries a length. */
  predicate IsSized(t: Ty) {
    !(t.Slice? || t.Str?)
  }

  /** The shapes Rust accepts: `Option`, arrays, vectors and slices need a
      sized element; references, boxes and `PhantomData` accept any. */
  predicate WfTy(t: Ty) {
    match t
    case Opt(e) => IsSized(e) && WfTy(e)
    case Arr(e, _) => IsSized(e) && WfTy(e)
    case Vec(e) => IsSized(e) && WfTy(e)
    case Slice(e) => IsSized(e) && WfTy(e)
    case Ref(e) => WfTy(e)
    case RefMut(e) => WfTy(e)
    case Box(e) => WfTy(e)
    case Phantom(e) => WfTy(e)
    case _ => true
  }

  /** The platform facts that `size_of` depends on and that the rules treat
      as given: the width of `usize` and of a thin pointer, the extra bytes
      `Option<T>` needs beyond `T` (zero where a niche is available), and the
      inline sizes of the two memory-mapping handles. */
  datatype Layout = Layout(word: nat, optionOverhead: Ty -> nat, mmapHandle: nat, mmapMutHandle: nat)

  function PrimSize(lay: Layout, p: Prim): nat {
    match p
    case Unit => 0
    case Bool => 1
    case Char => 4
    case F32 => 4
    case F64 => 8
    case U8 => 1
    case U16 => 2
    case U32 => 4
    case U64 => 8
    case U128 => 16
    case Usize => lay.word
    case I8 => 1
    case I16 => 2
    case I32 => 4
    case I64 => 8
    case I128 => 16
    case Isize => lay.word
  }

  /** Inline size of a pointer (reference or box) to a value of shape `t`:
      one word, or two (address and length) when `t` is unsized. */
  function PointerSize(lay: Layout, t: Ty): nat {
    if IsSized(t) then lay.word else 2 * lay.word
  }

  /** `size_of::<t>()`. An array is exactly `n` elements with no header;
      `PhantomData` is zero-sized; `Vec` and `String` are a pointer, a
      capacity and a length. */
  function SizeOf(lay: Layout, t: Ty): (r: int)
    requires WfTy(t) && IsSized(t)
    ensures r >= 0
  {
    match t
    case Scalar(p) => PrimSize(lay, p)
    case Ref(e) => PointerSize(lay, e)
    case RefMut(e) => PointerSize(lay, e)
    case Box(e) => PointerSize(lay, e)
    case Opt(e) => SizeOf(lay, e) + lay.optionOverhead(e)
    case Arr(e, n) => n * SizeOf(lay, e)
    case Vec(_) => 3 * lay.word
    case String => 3 * lay.word
    case Mmap => lay.mmapHandle
    case MmapMut => lay.mmapMutHandle
    case Phantom(_) => 0
    case Slice(_) => 0  // excluded by the requires
    case Str => 0       // excluded by the requires
  }
}
