/** What the memory-size rules promise, stated over all well-formed values:
    the inline-versus-out-of-line accounting of each shape, how the shapes
    relate to one another, and what the `CAPACITY` flag adds. */
module MemSizeProperties {
  import opened Shapes
  import opened Values
  import opened ImplMemSize

  /** `SizeFlags::default()`: count only what is in use. */
  const Used: SizeFlags := {}
  /** `SizeFlags::CAPACITY`: also count reserved but unused storage. */
  const WithCapacity: SizeFlags := {Capacity}

  // ---------------------------------------------------------------------
  // Element sums

  lemma MulSucc(n: nat, s: int)
    ensures (n + 1) * s == n * s + s
  {
  }

  lemma {:induction false} SumMemConcat(lay: Layout, e: Ty, a: seq<Val>, b: seq<Val>, f: SizeFlags)
    requires AllOf(e, a) && AllOf(e, b)
    ensures AllOf(e, a + b)
    ensures SumMem(lay, e, a + b, f) == SumMem(lay, e, a, f) + SumMem(lay, e, b, f)
    decreases |a|
  {
    if a == [] {
      assert a + b == b;
    } else {
      assert (a + b)[1..] == a[1..] + b;
      SumMemConcat(lay, e, a[1..], b, f);
    }
  }

  /** Subtracting the element's inline size from every element, as arrays
      do, removes exactly the inline size of all elements together. */
  lemma {:induction false} SumExtraCancelsInline(lay: Layout, e: Ty, items: seq<Val>, f: SizeFlags)
    requires WfTy(e) && IsSized(e) && AllOf(e, items)
    ensures SumExtra(lay, e, items, f) + |items| * SizeOf(lay, e) == SumMem(lay, e, items, f)
    decreases |items|
  {
    if items != [] {
      var s := SizeOf(lay, e);
      var rest := items[1..];
      SumExtraCancelsInline(lay, e, rest, f);
      MulSucc(|rest|, s);
      assert SumExtra(lay, e, items, f) == (MemSize(lay, items[0], f) - s) + SumExtra(lay, e, rest, f);
      assert SumMem(lay, e, items, f) == MemSize(lay, items[0], f) + SumMem(lay, e, rest, f);
    }
  }

  // ---------------------------------------------------------------------
  // Fixed arrays and slices

  /** An array reports exactly the sum of its elements' full sizes: its own
      inline size cancels the per-element subtraction. */
  lemma ArrayIsSumOfElements(lay: Layout, e: Ty, items: seq<Val>, f: SizeFlags)
    requires Wf(ArrV(e, items))
    ensures MemSize(lay, ArrV(e, items), f) == SumMem(lay, e, items, f)
  {
    SumExtraCancelsInline(lay, e, items, f);
  }

  /** Joining two arrays of the same element type adds their sizes; the
      empty array reports nothing. */
  lemma ArrayConcat(lay: Layout, e: Ty, a: seq<Val>, b: seq<Val>, f: SizeFlags)
    requires Wf(ArrV(e, a)) && Wf(ArrV(e, b))
    ensures Wf(ArrV(e, a + b)) && Wf(ArrV(e, []))
    ensures MemSize(lay, ArrV(e, a + b), f) == MemSize(lay, ArrV(e, a), f) + MemSize(lay, ArrV(e, b), f)
    ensures MemSize(lay, ArrV(e, []), f) == 0
  {
    SumMemConcat(lay, e, a, b, f);
    ArrayIsSumOfElements(lay, e, a, f);
    ArrayIsSumOfElements(lay, e, b, f);
    ArrayIsSumOfElements(lay, e, a + b, f);
  }

  /** A slice reports `size_of::<usize>()` on top of what an array of the
      same elements reports, so an empty slice reports only that word, and
      joining two slices saves one such word. */
  lemma SliceIsHeaderPlusArray(lay: Layout, e: Ty, a: seq<Val>, b: seq<Val>, f: SizeFlags)
    requires Wf(SliceV(e, a)) && Wf(SliceV(e, b))
    ensures Wf(ArrV(e, a)) && Wf(SliceV(e, a + b)) && Wf(SliceV(e, []))
    ensures MemSize(lay, SliceV(e, a), f) == lay.word + MemSize(lay, ArrV(e, a), f)
    ensures MemSize(lay, SliceV(e, []), f) == lay.word
    ensures MemSize(lay, SliceV(e, a + b), f) + lay.word == MemSize(lay, SliceV(e, a), f) + MemSize(lay, SliceV(e, b), f)
  {
    ArrayIsSumOfElements(lay, e, a, f);
    SumMemConcat(lay, e, a, b, f);
  }

  // ---------------------------------------------------------------------
  // Scalars and every shape that owns nothing out of line

  /** Shapes whose values own no storage beyond their inline bytes. */
  predicate InlineOnly(t: Ty) {
    match t
    case Scalar(_) => true
    case Ref(_) => true
    case RefMut(_) => true
    case Phantom(_) => true
    case Mmap => true
    case MmapMut => true
    case Opt(e) => InlineOnly(e)
    case Arr(e, _) => InlineOnly(e)
    case _ => false
  }

  /** A value of a shape that owns nothing reports exactly its inline size,
      whatever its contents and whatever the flags: scalars, references,
      `PhantomData`, memory-mapping handles, and options and arrays of them. */
  lemma {:induction false} InlineOnlyExact(lay: Layout, v: Val, f: SizeFlags)
    requires Wf(v) && InlineOnly(TypeOf(v))
    ensures MemSize(lay, v, f) == SizeOf(lay, TypeOf(v))
    decreases v, 1
  {
    match v
    case OptV(e, p) =>
      if p.Some? {
        InlineOnlyExact(lay, p.value, f);
      }
    case ArrV(e, items) =>
      ArrayIsSumOfElements(lay, e, items, f);
      SumMemInline(lay, e, items, f);
    case _ =>
  }

  lemma {:induction false} SumMemInline(lay: Layout, e: Ty, items: seq<Val>, f: SizeFlags)
    requires WfTy(e) && IsSized(e) && InlineOnly(e) && AllOf(e, items)
    ensures SumMem(lay, e, items, f) == |items| * SizeOf(lay, e)
    decreases items, 0
  {
    if items != [] {
      InlineOnlyExact(lay, items[0], f);
      SumMemInline(lay, e, items[1..], f);
      MulSucc(|items[1..]|, SizeOf(lay, e));
    }
  }

  /** `&T` and `&mut T` report the handle only: a thin or fat pointer,
      however much the referent owns. */
  lemma ReferentNeverCounted(lay: Layout, x: Val, y: Val, f: SizeFlags, g: SizeFlags)
    requires Wf(x) && Wf(y) && IsSized(TypeOf(x)) == IsSized(TypeOf(y))
    ensures Wf(RefV(x)) && Wf(RefMutV(y))
    ensures MemSize(lay, RefV(x), f) == MemSize(lay, RefMutV(y), g)
    ensures MemSize(lay, RefV(x), f) == if IsSized(TypeOf(x)) then lay.word else 2 * lay.word
  {
  }

  /** `PhantomData<T>` reports nothing, whatever `T` is and whatever the
      flags. */
  lemma PhantomIsZero(lay: Layout, t: Ty, f: SizeFlags)
    requires WfTy(t)
    ensures Wf(PhantomV(t)) && MemSize(lay, PhantomV(t), f) == 0
  {
  }

  /** The memory-mapping handles report their inline size only, however
      many bytes are mapped and whatever the flags. */
  lemma MmapHandleOnly(lay: Layout, m: nat, n: nat, f: SizeFlags, g: SizeFlags)
    ensures MemSize(lay, MmapV(m), f) == MemSize(lay, MmapV(n), g) == lay.mmapHandle
    ensures MemSize(lay, MmapMutV(m), f) == MemSize(lay, MmapMutV(n), g) == lay.mmapMutHandle
  {
  }

  // ---------------------------------------------------------------------
  // Option and Box: inline versus out-of-line payloads

  /** `None` reports the wrapper's inline size, however much a `T` could
      own; `Some(x)` adds only what `x` owns beyond its inline size. */
  lemma OptionAccounting(lay: Layout, e: Ty, x: Val, f: SizeFlags)
    requires Wf(OptV(e, Some(x)))
    ensures Wf(OptV(e, None))
    ensures MemSize(lay, OptV(e, None), f) == SizeOf(lay, Opt(e))
    ensures MemSize(lay, OptV(e, Some(x)), f) == MemSize(lay, OptV(e, None), f) + MemSize(lay, x, f) - SizeOf(lay, e)
    ensures MemSize(lay, OptV(e, None), f) <= MemSize(lay, OptV(e, Some(x)), f)
  {
  }

  /** A box adds its pointee's full size, an option only the part beyond the
      pointee's inline size: boxing `x` costs `size_of::<T>()` more
      out-of-line bytes than wrapping it in `Some`. */
  lemma BoxVersusOption(lay: Layout, x: Val, f: SizeFlags)
    requires Wf(x) && IsSized(TypeOf(x))
    ensures Wf(BoxV(x)) && Wf(OptV(TypeOf(x), Some(x)))
    ensures MemSize(lay, BoxV(x), f) == lay.word + MemSize(lay, x, f)
    ensures MemSize(lay, BoxV(x), f) - SizeOf(lay, Box(TypeOf(x)))
         == MemSize(lay, OptV(TypeOf(x), Some(x)), f) - SizeOf(lay, Opt(TypeOf(x))) + SizeOf(lay, TypeOf(x))
  {
  }

  // ---------------------------------------------------------------------
  // Vec and String

  /** Pushing `x` onto a vector adds `x`'s full size when only used storage
      is counted; when the push fills a reserved slot and capacity is
      counted, the slot's inline size was already paid for. */
  lemma VecPush(lay: Layout, e: Ty, items: seq<Val>, x: Val, cap: nat)
    requires Wf(VecV(e, items + [x], cap))
    ensures Wf(VecV(e, items, cap)) && Wf(x)
    ensures MemSize(lay, VecV(e, items + [x], cap), Used) == MemSize(lay, VecV(e, items, cap), Used) + MemSize(lay, x, Used)
    ensures MemSize(lay, VecV(e, items + [x], cap), WithCapacity) + SizeOf(lay, e)
         == MemSize(lay, VecV(e, items, cap), WithCapacity) + MemSize(lay, x, WithCapacity)
  {
    var all := items + [x];
    assert all[|items|] == x;
    assert AllOf(e, items) by {
      forall i | 0 <= i < |items| ensures Wf(items[i]) && TypeOf(items[i]) == e {
        assert items[i] == all[i];
      }
    }
    assert AllOf(e, [x]);
    SumMemConcat(lay, e, items, [x], Used);
    SumMemConcat(lay, e, items, [x], WithCapacity);
    MulSucc(cap - |all|, SizeOf(lay, e));
  }

  /** An empty vector reports its header, plus every reserved slot's inline
      size when capacity is counted. */
  lemma EmptyVec(lay: Layout, e: Ty, cap: nat)
    requires WfTy(e) && IsSized(e)
    ensures Wf(VecV(e, [], cap))
    ensures MemSize(lay, VecV(e, [], cap), Used) == 3 * lay.word
    ensures MemSize(lay, VecV(e, [], cap), WithCapacity) == 3 * lay.word + cap * SizeOf(lay, e)
  {
  }

  /** `Box<[T]>` (a fat pointer, plus the word the slice rule adds) reports
      the same as a `Vec<T>` of the same elements with no spare capacity. */
  lemma BoxedSliceMatchesTightVec(lay: Layout, e: Ty, items: seq<Val>, f: SizeFlags)
    requires Wf(SliceV(e, items))
    ensures Wf(BoxV(SliceV(e, items))) && Wf(VecV(e, items, |items|))
    ensures MemSize(lay, BoxV(SliceV(e, items)), f) == MemSize(lay, VecV(e, items, |items|), f)
  {
  }

  /** A `str` reports a word plus its bytes; a `&str` only its fat pointer;
      a `String` its header plus its length, or its capacity when capacity
      is counted; and `Box<str>` the same as a `String` with no spare
      capacity. */
  lemma TextAccounting(lay: Layout, b: seq<bv8>, cap: nat, f: SizeFlags)
    requires |b| <= cap
    ensures Wf(StringV(b, cap)) && Wf(StringV(b, |b|))
    ensures MemSize(lay, StrV(b), f) == lay.word + |b|
    ensures MemSize(lay, RefV(StrV(b)), f) == 2 * lay.word
    ensures MemSize(lay, StringV(b, cap), Used) == 3 * lay.word + |b|
    ensures MemSize(lay, StringV(b, cap), WithCapacity) == 3 * lay.word + cap
    ensures MemSize(lay, BoxV(StrV(b)), f) == MemSize(lay, StringV(b, |b|), f)
  {
  }

  // ---------------------------------------------------------------------
  // The CAPACITY flag

  /** Reserved but unused bytes owned by `v`, directly or through any of the
      storage it owns: spare vector slots at their element's inline size and
      spare string bytes. A referent is not owned, so it contributes none. */
  function Slack(lay: Layout, v: Val): nat
    requires Wf(v)
    decreases v, 1
  {
    match v
    case OptV(_, p) => if p.Some? then Slack(lay, p.value) else 0
    case ArrV(e, items) => SumSlack(lay, e, items)
    case VecV(e, items, cap) =>
      var spare: nat := cap - |items|;
      var slot: nat := SizeOf(lay, e);
      spare * slot + SumSlack(lay, e, items)
    case BoxV(x) => Slack(lay, x)
    case SliceV(e, items) => SumSlack(lay, e, items)
    case StringV(b, cap) => cap - |b|
    case _ => 0
  }

  function SumSlack(lay: Layout, e: Ty, items: seq<Val>): nat
    requires AllOf(e, items)
    decreases items, 0
  {
    if items == [] then 0 else Slack(lay, items[0]) + SumSlack(lay, e, items[1..])
  }

  /** Counting capacity adds exactly the reserved but unused bytes, at every
      level of nesting: the flag reaches every nested call unchanged. */
  lemma {:induction false} CapacityAddsSlack(lay: Layout, v: Val)
    requires Wf(v)
    ensures MemSize(lay, v, WithCapacity) == MemSize(lay, v, Used) + Slack(lay, v)
    decreases v, 1
  {
    match v
    case OptV(e, p) =>
      if p.Some? {
        CapacityAddsSlack(lay, p.value);
      }
    case ArrV(e, items) =>
      ArrayIsSumOfElements(lay, e, items, Used);
      ArrayIsSumOfElements(lay, e, items, WithCapacity);
      SumMemAddsSlack(lay, e, items);
    case VecV(e, items, cap) =>
      SumMemAddsSlack(lay, e, items);
    case BoxV(x) =>
      CapacityAddsSlack(lay, x);
    case SliceV(e, items) =>
      SumMemAddsSlack(lay, e, items);
    case _ =>
  }

  lemma {:induction false} SumMemAddsSlack(lay: Layout, e: Ty, items: seq<Val>)
    requires AllOf(e, items)
    ensures SumMem(lay, e, items, WithCapacity) == SumMem(lay, e, items, Used) + SumSlack(lay, e, items)
    decreases items, 0
  {
    if items != [] {
      CapacityAddsSlack(lay, items[0]);
      SumMemAddsSlack(lay, e, items[1..]);
    }
  }

  /** Counting capacity never reports less. */
  lemma CapacityNeverSmaller(lay: Layout, v: Val)
    requires Wf(v)
    ensures MemSize(lay, v, WithCapacity) >= MemSize(lay, v, Used)
  {
    CapacityAddsSlack(lay, v);
  }

  /** Every vector and string owned by `v`, at any depth, is full. */
  predicate Tight(v: Val)
    decreases v, 1
  {
    match v
    case OptV(_, p) => p.Some? ==> Tight(p.value)
    case ArrV(_, items) => AllTight(items)
    case VecV(_, items, cap) => cap == |items| && AllTight(items)
    case BoxV(x) => Tight(x)
    case SliceV(_, items) => AllTight(items)
    case StringV(b, cap) => cap == |b|
    case _ => true
  }

  predicate AllTight(items: seq<Val>)
    decreases items, 0
  {
    forall i :: 0 <= i < |items| ==> Tight(items[i])
  }

  /** When nothing owned has spare capacity the two modes agree. */
  lemma {:induction false} TightModesAgree(lay: Layout, v: Val)
    requires Wf(v) && Tight(v)
    ensures Slack(lay, v) == 0
    ensures MemSize(lay, v, WithCapacity) == MemSize(lay, v, Used)
    decreases v, 1
  {
    CapacityAddsSlack(lay, v);
    match v
    case OptV(e, p) =>
      if p.Some? {
        TightModesAgree(lay, p.value);
      }
    case ArrV(e, items) => TightSumSlack(lay, e, items);
    case VecV(e, items, cap) => TightSumSlack(lay, e, items);
    case BoxV(x) => TightModesAgree(lay, x);
    case SliceV(e, items) => TightSumSlack(lay, e, items);
    case _ =>
  }

  lemma {:induction false} TightSumSlack(lay: Layout, e: Ty, items: seq<Val>)
    requires AllOf(e, items) && AllTight(items)
    ensures SumSlack(lay, e, items) == 0
    decreases items, 0
  {
    if items != [] {
      TightModesAgree(lay, items[0]);
      TightSumSlack(lay, e, items[1..]);
    }
  }

  // ---------------------------------------------------------------------
  // Worked scenarios

  /** Three `u32`s in a `Vec`: twelve bytes of elements in both modes while
      the capacity is three; at capacity ten, seven spare four-byte slots
      more when capacity is counted. */
  lemma VecOfU32Scenario(lay: Layout)
    ensures var xs := [ScalarV(U32, 1), ScalarV(U32, 2), ScalarV(U32, 3)];
      && Wf(VecV(Scalar(U32), xs, 3)) && Wf(VecV(Scalar(U32), xs, 10))
      && MemSize(lay, VecV(Scalar(U32), xs, 3), Used) == 3 * lay.word + 12
      && MemSize(lay, VecV(Scalar(U32), xs, 3), WithCapacity) == 3 * lay.word + 12
      && MemSize(lay, VecV(Scalar(U32), xs, 10), Used) == 3 * lay.word + 12
      && MemSize(lay, VecV(Scalar(U32), xs, 10), WithCapacity) == 3 * lay.word + 12 + 7 * 4
  {
    var xs := [ScalarV(U32, 1), ScalarV(U32, 2), ScalarV(U32, 3)];
    assert AllOf(Scalar(U32), xs);
    SumMemInline(lay, Scalar(U32), xs, Used);
    SumMemInline(lay, Scalar(U32), xs, WithCapacity);
  }
}
