/** The `MemSize::mem_size` rules for the built-in shapes.

    Every rule is the inline size of the shape plus what it owns out of line.
    A payload stored inside the parent's own layout (the `Some` of an
    `Option`, the elements of an array) contributes only what it owns beyond
    its inline size; a payload reached through a pointer (the pointee of a
    `Box`, the elements of a `Vec` or a slice) contributes its full size. */
module ImplMemSize {
  import opened Shapes
  import opened Values

  /** The one bit of `SizeFlags` the rules consult. */
  datatype SizeFlag = Capacity

  type SizeFlags = set<SizeFlag>

  /** `v.mem_size(flags)`. The subtractions on the `Option` and array paths
      are `usize` subtractions in the source: the postcondition, that no
      sized value reports less than its inline size, is what keeps them
      from underflowing (the result type here is `nat`). */
  function MemSize(lay: Layout, v: Val, flags: SizeFlags): (r: nat)
    requires Wf(v)
    ensures IsSized(TypeOf(v)) ==> r >= SizeOf(lay, TypeOf(v))
    decreases v, 1
  {
    match v
    case ScalarV(p, _) => SizeOf(lay, Scalar(p))
    case RefV(x) => SizeOf(lay, Ref(TypeOf(x)))
    case RefMutV(x) => SizeOf(lay, RefMut(TypeOf(x)))
    case OptV(e, p) =>
      SizeOf(lay, Opt(e)) + (match p
                             case None => 0
                             case Some(x) => MemSize(lay, x, flags) - SizeOf(lay, e))
    case ArrV(e, items) => SizeOf(lay, Arr(e, |items|)) + SumExtra(lay, e, items, flags)
    case VecV(e, items, cap) =>
      if Capacity in flags then
        var spare: nat := cap - |items|;
        var slot: nat := SizeOf(lay, e);
        SizeOf(lay, Vec(e)) + SumMem(lay, e, items, flags) + spare * slot
      else
        SizeOf(lay, Vec(e)) + SumMem(lay, e, items, flags)
    case BoxV(x) => SizeOf(lay, Box(TypeOf(x))) + MemSize(lay, x, flags)
    case SliceV(e, items) => SizeOf(lay, Scalar(Usize)) + SumMem(lay, e, items, flags)
    case PhantomV(_) => 0
    case StrV(b) => SizeOf(lay, Scalar(Usize)) + |b|
    case StringV(b, cap) =>
      if Capacity in flags then SizeOf(lay, String) + cap else SizeOf(lay, String) + |b|
    case MmapV(_) => SizeOf(lay, Mmap)
    case MmapMutV(_) => SizeOf(lay, MmapMut)
  }

  /** `items.iter().map(|x| x.mem_size(flags)).sum()`. */
  function SumMem(lay: Layout, e: Ty, items: seq<Val>, flags: SizeFlags): nat
    requires AllOf(e, items)
    decreases items, 0
  {
    if items == [] then 0 else MemSize(lay, items[0], flags) + SumMem(lay, e, items[1..], flags)
  }

  /** `items.iter().map(|x| x.mem_size(flags) - size_of::<T>()).sum()`. */
  function SumExtra(lay: Layout, e: Ty, items: seq<Val>, flags: SizeFlags): nat
    requires WfTy(e) && IsSized(e) && AllOf(e, items)
    decreases items, 0
  {
    if items == [] then 0
    else (MemSize(lay, items[0], flags) - SizeOf(lay, e)) + SumExtra(lay, e, items[1..], flags)
  }
}
