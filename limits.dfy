/**
  Table types, host integer widths, the growth limiter and `limit_new`, which turns a
  declared table type into the (minimum, maximum) pair a new table is built with.
*/
module Limits {
  import opened Wrappers
  import opened Elements

  const U32_MAX: nat := 0xFFFF_FFFF
  const U64_MAX: nat := 0xFFFF_FFFF_FFFF_FFFF

  /** The host's pointer width, which bounds `usize`. */
  datatype PointerWidth = Width32 | Width64

  function UsizeMax(w: PointerWidth): (m: nat)
    ensures U32_MAX <= m <= U64_MAX
  {
    match w
    case Width32 => U32_MAX
    case Width64 => U64_MAX
  }

  /** `usize::try_from(x)` for a `u64` value `x`. */
  function ToUsize(x: nat, w: PointerWidth): (r: Option<nat>)
    ensures r.Some? <==> x <= UsizeMax(w)
    ensures r.Some? ==> r.value == x
  {
    if x <= UsizeMax(w) then Some(x) else None
  }

  /** The index width of a table (`i32` or `i64` indices). */
  datatype IndexType = I32 | I64

  /** Declared limits of a table; both are `u64` in the source. */
  datatype Limits = Limits(min: nat, max: Option<nat>)

  /** A declared table type: its reference type's heap top, index width and limits. */
  datatype TableType = TableType(refType: WasmHeapTopType, idxType: IndexType, limits: Limits)

  /**
    What module validation guarantees of a declared table type: limits fit the
    index width and the minimum does not exceed the maximum.
  */
  predicate ValidTableType(ty: TableType)
  {
    var bound := if ty.idxType == I32 then U32_MAX else U64_MAX;
    ty.limits.min <= bound &&
    (ty.limits.max.Some? ==> ty.limits.min <= ty.limits.max.value <= bound)
  }

  /** Errors reported to the host (distinct from traps). */
  datatype Error =
    | TableOutOfBoundsTrap        // a `Trap::TableOutOfBounds` converted into an error
    | MinimumExceedsLimits        // "table minimum size of .. elements exceeds table limits"
    | MinimumExceedsCapacity      // the pooling allocator's buffer is too small
    | LimiterError                // the limiter itself failed

  /** The answer of `table_growing`: allow, deny, or fail with an error. */
  datatype Decision = Allow | Deny | Fail

  /**
    The store's resource limiter, modelled as an oracle. `growing(old, new, max)` is
    `table_growing`; `growFailedIsFatal` says whether `table_grow_failed` returns an
    error (propagated by the caller) or only records the failure.
  */
  datatype Limiter = Limiter(growing: (nat, nat, Option<nat>) -> Decision, growFailedIsFatal: bool)

  /**
    The maximum a new table gets: the declared one if present, otherwise the largest
    index of its index width; `None` (unbounded) when that does not fit in `usize`.
  */
  function DeclaredMaximum(ty: TableType, w: PointerWidth): (m: Option<nat>)
    ensures ty.limits.max.Some? ==> m == ToUsize(ty.limits.max.value, w)
    ensures ty.limits.max.None? && ty.idxType == I32 ==> m == Some(U32_MAX)
    ensures ty.limits.max.None? && ty.idxType == I64 ==> (m.Some? <==> w == Width64) && (m.Some? ==> m.value == U64_MAX)
  {
    match (ty.limits.max, ty.idxType)
    case (Some(max), _) => ToUsize(max, w)
    case (None, I64) => ToUsize(U64_MAX, w)
    case (None, I32) => ToUsize(U32_MAX, w)
  }

  /**
    `Table::limit_new`. The limiter is asked about growing from 0 to the minimum
    (`usize::MAX` standing in for a minimum that does not fit), and only then is an
    unrepresentable minimum reported.
  */
  function LimitNew(ty: TableType, w: PointerWidth, limiter: Limiter): (r: Result<(nat, Option<nat>), Error>)
    ensures r.Ok? <==>
              ty.limits.min <= UsizeMax(w) && limiter.growing(0, ty.limits.min, DeclaredMaximum(ty, w)) == Allow
    ensures r.Ok? ==> r.value.0 == ty.limits.min && r.value.1 == DeclaredMaximum(ty, w)
    ensures r.Ok? ==> r.value.1.None? || r.value.1.value <= UsizeMax(w)
    ensures r.Err? ==> r.error == MinimumExceedsLimits || r.error == LimiterError
    ensures r == Err(LimiterError) <==>
              limiter.growing(0, ToUsize(ty.limits.min, w).UnwrapOr(UsizeMax(w)), DeclaredMaximum(ty, w)) == Fail
  {
    var minimum := ToUsize(ty.limits.min, w);
    var maximum := DeclaredMaximum(ty, w);
    match limiter.growing(0, minimum.UnwrapOr(UsizeMax(w)), maximum)
    case Fail => Err(LimiterError)
    case Deny => Err(MinimumExceedsLimits)
    case Allow =>
      if minimum.None? then Err(MinimumExceedsLimits) else Ok((minimum.value, maximum))
  }

  /** A validated table type's minimum never exceeds the maximum `limit_new` derives. */
  lemma LimitNewMinimumWithinMaximum(ty: TableType, w: PointerWidth, limiter: Limiter)
    requires ValidTableType(ty)
    requires LimitNew(ty, w, limiter).Ok?
    ensures var (min, max) := LimitNew(ty, w, limiter).value; max.None? || min <= max.value
  {
  }
}
