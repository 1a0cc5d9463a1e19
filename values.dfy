/** Values of the built-in shapes, as far as their memory size depends on
    them: the elements of containers, lengths and capacities, the referent of
    a reference. */
module Values {
  import opened Shapes

  datatype Option<T> = None | Some(value: T)

  datatype Val =
    | ScalarV(prim: Prim, bits: int)
    | RefV(target: Val)
    | RefMutV(target: Val)
    | OptV(elem: Ty, payload: Option<Val>)
    | ArrV(elem: Ty, items: seq<Val>)
    | VecV(elem: Ty, items: seq<Val>, capacity: nat)
    | BoxV(pointee: Val)
    | SliceV(elem: Ty, items: seq<Val>)
    | PhantomV(marker: Ty)
    | StrV(bytes: seq<bv8>)
    | StringV(bytes: seq<bv8>, capacity: nat)
    | MmapV(mapped: nat)        // bytes of the mapping: never counted
    | MmapMutV(mapped: nat)

  function TypeOf(v: Val): Ty {
    match v
    case ScalarV(p, _) => Scalar(p)
    case RefV(x) => Ref(TypeOf(x))
    case RefMutV(x) => RefMut(TypeOf(x))
    case OptV(e, _) => Opt(e)
    case ArrV(e, items) => Arr(e, |items|)
    case VecV(e, _, _) => Vec(e)
    case BoxV(x) => Box(TypeOf(x))
    case SliceV(e, _) => Slice(e)
    case PhantomV(t) => Phantom(t)
    case StrV(_) => Str
    case StringV(_, _) => String
    case MmapV(_) => Mmap
    case MmapMutV(_) => MmapMut
  }

  /** What Rust's type system and the `Vec`/`String` invariants guarantee:
      the value's shape is a valid type, every element has the declared
      element type, and the length never exceeds the capacity. */
  predicate Wf(v: Val)
    decreases v, 1
  {
    && WfTy(TypeOf(v))
    && match v
       case RefV(x) => Wf(x)
       case RefMutV(x) => Wf(x)
       case OptV(e, p) => p.Some? ==> Wf(p.value) && TypeOf(p.value) == e
       case ArrV(e, items) => AllOf(e, items)
       case VecV(e, items, cap) => |items| <= cap && AllOf(e, items)
       case BoxV(x) => Wf(x)
       case SliceV(e, items) => AllOf(e, items)
       case StringV(b, cap) => |b| <= cap
       case _ => true
  }

  /** Every element is well formed and of shape `e`. */
  predicate AllOf(e: Ty, items: seq<Val>)
    decreases items, 0
  {
    forall i :: 0 <= i < |items| ==> Wf(items[i]) && TypeOf(items[i]) == e
  }
}
