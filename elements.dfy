/**
  Values that enter or leave a table slot, and the at-rest encoding of a slot.

  Every slot is modelled as a raw machine word (a `nat`) whose zero pattern means
  "no value" for all three element kinds. Function-reference slots additionally use
  the low address bit as an "initialized" tag when lazy initialization is enabled.
*/
module Elements {
  import opened Wrappers

  /** The kind of element a table stores; fixed for the lifetime of a table. */
  datatype TableElementType = Func | GcRef | Cont

  /**
    An element in transit. Function references are addresses, GC references are
    non-zero heap handles, continuation references are non-zero handles.
    `UninitFunc` only ever describes a lazily-initialized, not yet written funcref slot.
  */
  datatype TableElement =
    | FuncRef(func: Option<nat>)
    | GcRef(gc: Option<nat>)
    | UninitFunc
    | ContRef(cont: Option<nat>)

  /** The low address bit that marks an initialized funcref slot. */
  const FUNCREF_INIT_BIT: nat := 1

  /** A real funcref address is non-null and aligned, so its low bit is free. */
  predicate ValidFuncAddr(a: nat)
  {
    a != 0 && a % 2 == 0
  }

  /**
    The invariants the source's types give an element: funcref pointers are
    `NonNull` and at least 2-aligned, GC and continuation handles are non-zero.
  */
  predicate WellFormed(e: TableElement)
  {
    match e
    case FuncRef(f) => f.None? || ValidFuncAddr(f.value)
    case GcRef(r) => r.None? || r.value != 0
    case UninitFunc => true
    case ContRef(c) => c.None? || c.value != 0
  }

  /** `TableElementType::matches`: does `val` belong to a table of kind `ty`? */
  function Matches(ty: TableElementType, val: TableElement): (r: bool)
    ensures r ==> !val.UninitFunc?
    ensures val.FuncRef? ==> (r <==> ty == TableElementType.Func)
    ensures val.GcRef? ==> (r <==> ty == TableElementType.GcRef)
    ensures val.ContRef? ==> (r <==> ty == TableElementType.Cont)
  {
    match (val, ty)
    case (FuncRef(_), Func) => true
    case (GcRef(_), GcRef) => true
    case (ContRef(_), Cont) => true
    case _ => false
  }

  /**
    The elements a table of kind `ty` can store through `set`, `fill` and `grow`: those that
    match its kind, plus `UninitFunc` for a function table.
  */
  predicate Storable(ty: TableElementType, val: TableElement)
  {
    Matches(ty, val) || (val.UninitFunc? && ty == TableElementType.Func)
  }

  /** The top of a WebAssembly heap type, as far as tables care. */
  datatype WasmHeapTopType = TopFunc | TopAny | TopExtern | TopCont

  /** `wasm_to_table_type`: the element kind of a table of the given reference type. */
  function WasmToTableType(top: WasmHeapTopType): (ty: TableElementType)
    ensures ty == TableElementType.Func <==> top == TopFunc
    ensures ty == TableElementType.Cont <==> top == TopCont
    ensures ty == TableElementType.GcRef <==> (top == TopAny || top == TopExtern)
  {
    match top
    case TopFunc => TableElementType.Func
    case TopAny | TopExtern => TableElementType.GcRef
    case TopCont => TableElementType.Cont
  }

  /** `a | FUNCREF_INIT_BIT` on an address. */
  function SetInitBit(a: nat): (r: nat)
    ensures r % 2 == 1 && r / 2 == a / 2
  {
    a - a % 2 + FUNCREF_INIT_BIT
  }

  /** `a & FUNCREF_MASK`: the address with the init bit cleared. */
  function ClearInitBit(a: nat): (r: nat)
    ensures r % 2 == 0 && r / 2 == a / 2 && r <= a
  {
    a - a % 2
  }

  /**
    `MaybeTaggedFuncRef::from`. Without lazy init the slot holds the raw pointer
    (0 for null). With lazy init a null funcref is the bare tag bit and a real one
    is its address with the tag bit set, so no written slot is ever zero.
  */
  function EncodeFuncRef(ptr: Option<nat>, lazyInit: bool): (slot: nat)
    requires ptr.None? || ValidFuncAddr(ptr.value)
    ensures DecodeFuncRef(slot, lazyInit) == FuncRef(ptr)
    ensures lazyInit ==> slot != 0 && slot % 2 == 1
    ensures !lazyInit ==> slot == ptr.UnwrapOr(0)
  {
    if lazyInit then
      match ptr
      case Some(a) => SetInitBit(a)
      case None => FUNCREF_INIT_BIT
    else
      ptr.UnwrapOr(0)
  }

  /**
    `MaybeTaggedFuncRef::into_table_element`. A zero slot of a lazily-initialized
    table is `UninitFunc`; otherwise the tag bit is masked off and a zero result is null.
  */
  function DecodeFuncRef(slot: nat, lazyInit: bool): (e: TableElement)
    ensures e.UninitFunc? <==> lazyInit && slot == 0
    ensures e.FuncRef? ==> e.func.None? || ValidFuncAddr(e.func.value)
    ensures e.FuncRef? || e.UninitFunc?
  {
    if lazyInit && slot == 0 then
      UninitFunc
    else
      var unmasked := ClearInitBit(slot);
      FuncRef(if unmasked == 0 then None else Some(unmasked))
  }

  /**
    The other round trip: a word a funcref table can hold (odd or zero with lazy
    init, even without) that decodes to a funcref re-encodes to the same word.
  */
  lemma FuncRefWordRoundTrip(slot: nat, lazyInit: bool)
    requires lazyInit ==> slot == 0 || slot % 2 == 1
    requires !lazyInit ==> slot % 2 == 0
    ensures DecodeFuncRef(slot, lazyInit).FuncRef? ==>
              EncodeFuncRef(DecodeFuncRef(slot, lazyInit).func, lazyInit) == slot
  {
  }

  /** A non-zero handle, or none for the zero word (`Option<NonZero>` at rest). */
  function HandleOf(slot: nat): (h: Option<nat>)
    ensures h.None? <==> slot == 0
    ensures h.Some? ==> h.value == slot
  {
    if slot == 0 then None else Some(slot)
  }

  /**
    The word a storable element is written as in a table of kind `ty`: the funcref
    encoding, zero for `UninitFunc`, and the raw handle (or zero) for GC and
    continuation references.
  */
  function EncodeElement(ty: TableElementType, lazyInit: bool, e: TableElement): (slot: nat)
    requires Storable(ty, e) && WellFormed(e)
    ensures DecodeSlot(ty, lazyInit, slot) == (if e.UninitFunc? && !lazyInit then FuncRef(None) else e)
    ensures slot == 0 <==> e.UninitFunc? || (!lazyInit && e == FuncRef(None)) || e == TableElement.GcRef(None) || e == ContRef(None)
  {
    match e
    case FuncRef(f) => EncodeFuncRef(f, lazyInit)
    case UninitFunc => 0
    case GcRef(r) => r.UnwrapOr(0)
    case ContRef(c) => c.UnwrapOr(0)
  }

  /** What `get` returns for a slot word of a table of kind `ty`. */
  function DecodeSlot(ty: TableElementType, lazyInit: bool, slot: nat): (e: TableElement)
    ensures WellFormed(e)
    ensures e.UninitFunc? <==> ty == TableElementType.Func && lazyInit && slot == 0
    ensures !e.UninitFunc? ==> Matches(ty, e)
  {
    match ty
    case Func => DecodeFuncRef(slot, lazyInit)
    case GcRef => TableElement.GcRef(HandleOf(slot))
    case Cont => ContRef(HandleOf(slot))
  }
}
