/**
  The table façade: one table of raw slot words, over either externally owned
  fixed-capacity storage (`Static`) or an owned, growable vector (`Dynamic`), for
  one of the three element kinds.
*/
module Tables {
  import opened Wrappers
  import opened Elements
  import opened Limits
  import opened GcRefs

  /** The trap raised by out-of-bounds bulk operations. */
  datatype Trap = TableOutOfBounds

  /**
    The storage strategy, fixed at creation. A static table borrows `data`, of which
    it uses the first `capacity` words; a dynamic table owns its words (the
    `elements` field of `Table`) and carries the declared `maximum`.
  */
  datatype Storage = Static(data: array<nat>, capacity: nat) | Dynamic(maximum: Option<nat>)

  /**
    `s1` is `s0` with `vals` written at offset `d` and every other word unchanged.
  */
  ghost predicate Overwrites(s0: seq<nat>, s1: seq<nat>, d: nat, vals: seq<nat>)
  {
    |s1| == |s0| &&
    forall j :: 0 <= j < |s0| ==> s1[j] == if d <= j < d + |vals| then vals[j - d] else s0[j]
  }

  /** Writing one more word just past the written range extends it. */
  lemma OverwritesExtend(s0: seq<nat>, s1: seq<nat>, d: nat, vals: seq<nat>, v: nat)
    requires Overwrites(s0, s1, d, vals) && d + |vals| < |s0|
    ensures Overwrites(s0, s1[d + |vals| := v], d, vals + [v])
  {
  }

  /** Writing one more word just before the written range extends it downwards. */
  lemma OverwritesPrepend(s0: seq<nat>, s1: seq<nat>, d: nat, vals: seq<nat>, v: nat)
    requires Overwrites(s0, s1, d, vals) && 0 < d && d + |vals| <= |s0|
    ensures Overwrites(s0, s1[d - 1 := v], d - 1, [v] + vals)
  {
  }

  /**
    One step of the forward overlapping copy (`d < s`): the source word about to be
    read has not been overwritten yet, and writing it extends the copied prefix.
  */
  lemma ForwardStep(s0: seq<nat>, cur: seq<nat>, d: nat, s: nat, e: nat)
    requires d < s <= e < |s0| && Overwrites(s0, cur, d, s0[s..e])
    ensures cur[e] == s0[e]
    ensures Overwrites(s0, cur[d + (e - s) := cur[e]], d, s0[s..e + 1])
  {
    assert s0[s..e + 1] == s0[s..e] + [s0[e]];
    OverwritesExtend(s0, cur, d, s0[s..e], s0[e]);
  }

  /**
    One step of the reverse overlapping copy (`s < d`): the source word about to be
    read has not been overwritten yet, and writing it extends the copied suffix.
  */
  lemma BackwardStep(s0: seq<nat>, cur: seq<nat>, d: nat, s: nat, len: nat, k: nat)
    requires s < d && k < len && d + len <= |s0|
    requires Overwrites(s0, cur, d + k + 1, s0[s + k + 1..s + len])
    ensures cur[s + k] == s0[s + k]
    ensures Overwrites(s0, cur[d + k := cur[s + k]], d + k, s0[s + k..s + len])
  {
    assert s0[s + k..s + len] == [s0[s + k]] + s0[s + k + 1..s + len];
    OverwritesPrepend(s0, cur, d + k + 1, s0[s + k + 1..s + len], s0[s + k]);
  }

  /** Writing `vals` over `s` at offset `d`, as one splice of sequences. */
  function Splice(s: seq<nat>, d: nat, vals: seq<nat>): (r: seq<nat>)
    requires d + |vals| <= |s|
    ensures Overwrites(s, r, d, vals)
  {
    s[..d] + vals + s[d + |vals|..]
  }

  /** `Overwrites` determines the new words completely: they are the splice. */
  lemma OverwritesIsSplice(s0: seq<nat>, s1: seq<nat>, d: nat, vals: seq<nat>)
    requires d + |vals| <= |s0| && Overwrites(s0, s1, d, vals)
    ensures s1 == Splice(s0, d, vals)
  {
    var r := Splice(s0, d, vals);
    forall j | 0 <= j < |s1| ensures s1[j] == r[j] {
    }
  }

  function Min(a: nat, b: nat): (m: nat)
    ensures m <= a && m <= b && (m == a || m == b)
  {
    if a <= b then a else b
  }

  /** A sequence of `n` zero words: `n` slots holding no value. */
  function Zeros(n: nat): (z: seq<nat>)
    ensures |z| == n && forall j :: 0 <= j < n ==> z[j] == 0
  {
    seq(n, _ => 0)
  }

  /** Filling the zero padding appended to `s0` yields `s0` followed by the fill. */
  lemma OverwritesPadding(s0: seq<nat>, n: nat, s1: seq<nat>, w: nat)
    requires Overwrites(s0 + Zeros(n), s1, |s0|, seq(n, _ => w))
    ensures s1 == s0 + seq(n, _ => w)
  {
  }

  /** Zero padding adds no references. */
  lemma RefsPadded(s0: seq<nat>, n: nat)
    ensures Refs(s0 + Zeros(n)) == Refs(s0)
  {
    RefsConcat(s0, Zeros(n));
    RefsZeros(n);
  }

  /** The funcref words `init_func` writes for `items`, one per item. */
  function EncodeFuncRefs(items: seq<Option<nat>>, lazyInit: bool): (s: seq<nat>)
    requires forall i :: 0 <= i < |items| ==> items[i].None? || ValidFuncAddr(items[i].value)
    ensures |s| == |items|
    ensures forall i :: 0 <= i < |items| ==> DecodeFuncRef(s[i], lazyInit) == FuncRef(items[i])
  {
    seq(|items|, i requires 0 <= i < |items| => EncodeFuncRef(items[i], lazyInit))
  }

  /** The raw words `init_gc_refs` writes for `items`, one per item. */
  function GcRefWords(items: seq<Option<nat>>): (s: seq<nat>)
    requires forall i :: 0 <= i < |items| ==> items[i].None? || items[i].value != 0
    ensures |s| == |items|
    ensures forall i :: 0 <= i < |items| ==> HandleOf(s[i]) == items[i]
  {
    seq(|items|, i requires 0 <= i < |items| => items[i].UnwrapOr(0))
  }

  /**
    A non-zero `grow` request that passes every check of `grow`: the new size fits
    in `usize`, the limiter allows it and it does not exceed the maximum.
  */
  predicate GrowAccepted(oldSize: nat, delta: nat, maximum: Option<nat>, w: PointerWidth, limiter: Limiter)
  {
    oldSize + delta <= UsizeMax(w) &&
    limiter.growing(oldSize, oldSize + delta, maximum) == Allow &&
    (maximum.None? || oldSize + delta <= maximum.value)
  }

  /**
    A non-zero `grow` request that ends in an error rather than a rejection: `delta`
    does not fit in `usize`, or the limiter fails, or a failure it is told about
    (overflow, maximum exceeded) is fatal.
  */
  predicate GrowFails(oldSize: nat, delta: nat, maximum: Option<nat>, w: PointerWidth, limiter: Limiter)
  {
    var newSize := oldSize + delta;
    delta > UsizeMax(w) ||
    (newSize > UsizeMax(w) && limiter.growFailedIsFatal) ||
    (newSize <= UsizeMax(w) && limiter.growing(oldSize, newSize, maximum) == Fail) ||
    (newSize <= UsizeMax(w) && limiter.growing(oldSize, newSize, maximum) == Allow &&
     maximum.Some? && newSize > maximum.value && limiter.growFailedIsFatal)
  }

  /**
    The range check of `copy`: each index and the length convert to `usize`, and
    neither `index + len` overflows `usize` nor ends past its table's size.
  */
  function CopyInBounds(dstIndex: nat, srcIndex: nat, len: nat, dstSize: nat, srcSize: nat, w: PointerWidth): (ok: bool)
    requires dstSize <= UsizeMax(w) && srcSize <= UsizeMax(w)
    ensures ok <==> srcIndex + len <= srcSize && dstIndex + len <= dstSize
  {
    var s := ToUsize(srcIndex, w);
    var d := ToUsize(dstIndex, w);
    var n := ToUsize(len, w);
    !(s.None? || d.None? || n.None? ||
      s.value + n.value > UsizeMax(w) || s.value + n.value > srcSize ||
      d.value + n.value > UsizeMax(w) || d.value + n.value > dstSize)
  }

  class Table {
    /** The element kind (`element_type`). */
    const kind: TableElementType
    /** Whether funcref slots are lazily initialized; always false for other kinds. */
    const lazyInit: bool
    /** The host pointer width, which bounds sizes and index conversions. */
    const width: PointerWidth
    /** The storage strategy and its fixed parameters. */
    const storage: Storage
    /** The logical size of a static table. */
    var size: nat
    /** The element vector of a dynamic table; its length is the size. */
    var elements: seq<nat>

    /** The externally owned buffer of a static table. */
    function Buffer(): set<object>
    {
      if storage.Static? then {storage.data} else {}
    }

    /**
      The table invariant: a static table's size stays within its capacity, which
      stays within its buffer, and every word past the size is still zero; a dynamic
      table's size stays within its declared maximum. Sizes fit in `usize`.
    */
    ghost predicate Valid()
      reads this, Buffer()
    {
      (kind != TableElementType.Func ==> !lazyInit) &&
      match storage
      case Static(data, capacity) =>
        size <= capacity <= data.Length && capacity <= UsizeMax(width) &&
        forall i :: size <= i < capacity ==> data[i] == 0
      case Dynamic(maximum) =>
        |elements| <= UsizeMax(width) && (maximum.Some? ==> |elements| <= maximum.value)
    }

    /** `element_type`. */
    function ElementType(): (k: TableElementType)
      ensures k == kind
    {
      kind
    }

    /** `size`: the static size field, or the dynamic vector's length. */
    function Size(): (n: nat)
      reads this
      ensures storage.Static? ==> n == size
      ensures storage.Dynamic? ==> n == |elements|
    {
      if storage.Static? then size else |elements|
    }

    /** `maximum`: a static table's capacity, or a dynamic table's declared maximum. */
    function Maximum(): (m: Option<nat>)
      ensures storage.Static? ==> m == Some(storage.capacity)
      ensures storage.Dynamic? ==> m == storage.maximum
    {
      match storage
      case Static(_, capacity) => Some(capacity)
      case Dynamic(maximum) => maximum
    }

    /** The words of the table's `Size()` slots. */
    function Slots(): (s: seq<nat>)
      reads this, Buffer()
      requires Valid()
      ensures |s| == Size()
    {
      match storage
      case Static(data, _) => data[..size]
      case Dynamic(_) => elements
    }

    /** What `get` returns at `index`: the decoded slot, or nothing out of range. */
    function ElementAt(index: nat): (e: Option<TableElement>)
      reads this, Buffer()
      requires Valid()
      ensures e.Some? <==> index < Size()
      ensures e.Some? ==> WellFormed(e.value) && (e.value.UninitFunc? || Matches(kind, e.value))
    {
      if index < Size() then Some(DecodeSlot(kind, lazyInit, Slots()[index])) else None
    }

    /** Size and maximum agree with the invariant. */
    lemma SizeWithinMaximum()
      requires Valid()
      ensures Size() <= UsizeMax(width)
      ensures Maximum().Some? ==> Size() <= Maximum().value
      ensures storage.Static? ==> Maximum() == Some(storage.capacity) && storage.capacity <= storage.data.Length
      ensures storage.Dynamic? ==> Size() == |elements|
    {
    }

    /** A dynamic table of `minimum` empty slots (`new_dynamic` after `limit_new`). */
    constructor Dynamic(kind: TableElementType, tableLazyInit: bool, width: PointerWidth,
                        minimum: nat, maximum: Option<nat>)
      requires minimum <= UsizeMax(width) && (maximum.Some? ==> minimum <= maximum.value)
      ensures Valid() && this.kind == kind && this.width == width
      ensures lazyInit == (kind == TableElementType.Func && tableLazyInit)
      ensures storage == Storage.Dynamic(maximum) && Buffer() == {}
      ensures Slots() == Zeros(minimum)
    {
      this.kind := kind;
      this.lazyInit := kind == TableElementType.Func && tableLazyInit;
      this.width := width;
      this.storage := Storage.Dynamic(maximum);
      this.size := 0;
      this.elements := Zeros(minimum);
    }

    /**
      A static table over the first `capacity` words of the zeroed buffer `data`
      (`new_static` after its checks). The table never owns or frees `data`.
    */
    constructor Static(kind: TableElementType, tableLazyInit: bool, width: PointerWidth,
                       data: array<nat>, capacity: nat, minimum: nat)
      requires minimum <= capacity <= data.Length && capacity <= UsizeMax(width)
      requires forall i :: 0 <= i < data.Length ==> data[i] == 0
      ensures Valid() && this.kind == kind && this.width == width
      ensures lazyInit == (kind == TableElementType.Func && tableLazyInit)
      ensures storage == Storage.Static(data, capacity) && Buffer() == {data}
      ensures Slots() == Zeros(minimum)
    {
      this.kind := kind;
      this.lazyInit := kind == TableElementType.Func && tableLazyInit;
      this.width := width;
      this.storage := Storage.Static(data, capacity);
      this.size := minimum;
      this.elements := [];
      new;
      assert data[..minimum] == Zeros(minimum);
    }

    /** Overwrites the word of slot `i`. */
    method WriteSlot(i: nat, v: nat)
      requires Valid() && i < Size()
      modifies this, Buffer()
      ensures Valid() && Slots() == old(Slots())[i := v]
    {
      match storage {
        case Static(data, _) =>
          data[i] := v;
        case Dynamic(_) =>
          elements := elements[i := v];
      }
    }

    /** Writes `vals` into slots `[d, d + |vals|)`, front to back. */
    method WriteRange(d: nat, vals: seq<nat>)
      requires Valid() && d + |vals| <= Size()
      modifies this, Buffer()
      ensures Valid() && Overwrites(old(Slots()), Slots(), d, vals)
    {
      ghost var s0 := Slots();
      var k := 0;
      while k < |vals|
        invariant 0 <= k <= |vals| && Valid()
        invariant Overwrites(s0, Slots(), d, vals[..k])
      {
        WriteSlot(d + k, vals[k]);
        k := k + 1;
      }
      assert vals[..k] == vals;
    }

    /**
      `write_gc_ref` on slot `i`: the store releases the slot's occupant and retains
      `incoming`, which the slot then holds.
    */
    method WriteGcRef(store: GcStore, i: nat, incoming: nat,
                      ghost ret0: multiset<nat>, ghost rel0: multiset<nat>, ghost s0: seq<nat>)
      requires Valid() && i < Size()
      requires Accounted(ret0, rel0, s0, store.retains, store.releases, Slots())
      modifies this, Buffer(), store
      ensures Valid() && Slots() == old(Slots())[i := incoming]
      ensures Accounted(ret0, rel0, s0, store.retains, store.releases, Slots())
    {
      ghost var ret, rel, cur := store.retains, store.releases, Slots();
      var stored := store.WriteBarrier(Slots()[i], incoming);
      WriteSlot(i, stored);
      AccountedStep(ret0, rel0, s0, ret, rel, cur, i, incoming, store.retains, store.releases, Slots());
    }

    /**
      Writes `vals` into slots `[d, d + |vals|)` front to back, each through a
      write barrier: the loops of `fill` and `copy_elements` for GC references.
    */
    method WriteGcRefRange(store: GcStore, d: nat, vals: seq<nat>)
      requires Valid() && d + |vals| <= Size()
      modifies this, Buffer(), store
      ensures Valid() && Overwrites(old(Slots()), Slots(), d, vals)
      ensures Accounted(old(store.retains), old(store.releases), old(Slots()), store.retains, store.releases, Slots())
    {
      ghost var s0, ret0, rel0 := Slots(), store.retains, store.releases;
      var k := 0;
      while k < |vals|
        invariant 0 <= k <= |vals| && Valid()
        invariant Overwrites(s0, Slots(), d, vals[..k])
        invariant Accounted(ret0, rel0, s0, store.retains, store.releases, Slots())
      {
        WriteGcRefNext(store, d, vals, k, ret0, rel0, s0);
        k := k + 1;
      }
      assert vals[..k] == vals;
    }

    /** One iteration of `WriteGcRefRange`: the barrier write of `vals[k]`. */
    method WriteGcRefNext(store: GcStore, d: nat, vals: seq<nat>, k: nat,
                          ghost ret0: multiset<nat>, ghost rel0: multiset<nat>, ghost s0: seq<nat>)
      requires Valid() && k < |vals| && d + |vals| <= Size()
      requires Overwrites(s0, Slots(), d, vals[..k])
      requires Accounted(ret0, rel0, s0, store.retains, store.releases, Slots())
      modifies this, Buffer(), store
      ensures Valid() && Overwrites(s0, Slots(), d, vals[..k + 1])
      ensures Accounted(ret0, rel0, s0, store.retains, store.releases, Slots())
    {
      assert vals[..k + 1] == vals[..k] + [vals[k]];
      OverwritesExtend(s0, Slots(), d, vals[..k], vals[k]);
      WriteGcRef(store, d + k, vals[k], ret0, rel0, s0);
    }

    /**
      `fill`: writes `val` into slots `[dst, dst + len)`. Traps, changing nothing,
      when the range overflows or ends past the size. Funcref, uninitialized and
      continuation values are stored by value; GC references go through one write
      barrier per slot, after which the caller's reference is released once.
    */
    method Fill(store: GcStore, dst: nat, val: TableElement, len: nat, ghost owned: multiset<nat>)
      returns (r: Result<(), Trap>)
      requires Valid() && Storable(kind, val) && WellFormed(val)
      requires dst <= U64_MAX && len <= U64_MAX
      modifies this, Buffer(), store
      ensures Valid()
      ensures r.Err? <==> dst + len > old(Size())
      ensures r.Err? ==> Slots() == old(Slots())
      ensures r.Ok? ==> Overwrites(old(Slots()), Slots(), dst, seq(len, _ => EncodeElement(kind, lazyInit, val)))
      ensures kind != TableElementType.GcRef || r.Err? ==>
                store.retains == old(store.retains) && store.releases == old(store.releases)
      ensures kind == TableElementType.GcRef && r.Ok? ==>
                store.retains + old(store.releases) + Refs(old(Slots())) + Ref(EncodeElement(kind, lazyInit, val))
                == old(store.retains) + store.releases + Refs(Slots())
      ensures kind == TableElementType.GcRef && r.Ok? &&
              Balanced(old(store.retains), old(store.releases), old(Slots()), owned + Ref(EncodeElement(kind, lazyInit, val))) ==>
                Balanced(store.retains, store.releases, Slots(), owned)
    {
      SizeWithinMaximum();
      var start := ToUsize(dst, width);
      var count := ToUsize(len, width);
      if start.None? || count.None? || start.value + count.value > UsizeMax(width) {
        return Err(TableOutOfBounds);
      }
      var end := start.value + count.value;
      if end > Size() {
        return Err(TableOutOfBounds);
      }
      var word := EncodeElement(kind, lazyInit, val);
      match val {
        case GcRef(_) =>
          ghost var s0, ret0, rel0 := Slots(), store.retains, store.releases;
          WriteGcRefRange(store, start.value, seq(count.value, _ => word));
          AccountedDrop(ret0, rel0, s0, store.retains, store.releases, Slots(), word);
          if word != 0 {
            store.DropGcRef(word);
          }
          if Balanced(ret0, rel0, s0, owned + Ref(word)) {
            ConsumingKeepsBalance(ret0, rel0, s0, store.retains, store.releases, Slots(), word, owned);
          }
        case _ =>
          WriteRange(start.value, seq(len, _ => word));
      }
      return Ok(());
    }

    /**
      `init_func`: writes the encodings of `items` into `[dst, dst + |items|)`,
      trapping (with no change) when that range ends past the size.
    */
    method InitFunc(dst: nat, items: seq<Option<nat>>) returns (r: Result<(), Trap>)
      requires Valid() && kind == TableElementType.Func && dst <= U64_MAX
      requires forall i :: 0 <= i < |items| ==> items[i].None? || ValidFuncAddr(items[i].value)
      modifies this, Buffer()
      ensures Valid()
      ensures r.Err? <==> dst + |items| > old(Size())
      ensures r.Err? ==> Slots() == old(Slots())
      ensures r.Ok? ==> Overwrites(old(Slots()), Slots(), dst, EncodeFuncRefs(items, lazyInit))
    {
      SizeWithinMaximum();
      var start := ToUsize(dst, width);
      if start.None? || start.value > Size() || |items| > Size() - start.value {
        return Err(TableOutOfBounds);
      }
      WriteRange(start.value, EncodeFuncRefs(items, lazyInit));
      return Ok(());
    }

    /**
      `init_gc_refs`: writes `items` as raw words into `[dst, dst + |items|)`, with no
      write barrier, trapping (with no change) when that range ends past the size.
    */
    method InitGcRefs(dst: nat, items: seq<Option<nat>>) returns (r: Result<(), Trap>)
      requires Valid() && kind == TableElementType.GcRef && dst <= U64_MAX
      requires forall i :: 0 <= i < |items| ==> items[i].None? || items[i].value != 0
      modifies this, Buffer()
      ensures Valid()
      ensures r.Err? <==> dst + |items| > old(Size())
      ensures r.Err? ==> Slots() == old(Slots())
      ensures r.Ok? ==> Overwrites(old(Slots()), Slots(), dst, GcRefWords(items))
    {
      SizeWithinMaximum();
      var start := ToUsize(dst, width);
      if start.None? || start.value > Size() || |items| > Size() - start.value {
        return Err(TableOutOfBounds);
      }
      WriteRange(start.value, GcRefWords(items));
      return Ok(());
    }

    /**
      `get`: the decoded element at `index`, or nothing out of range. A GC reference
      is cloned through the store, which retains it once more for the caller.
    */
    method Get(store: GcStore, index: nat) returns (r: Option<TableElement>)
      requires Valid() && index <= U64_MAX
      modifies store
      ensures r == ElementAt(index)
      ensures kind == TableElementType.GcRef && index < Size() ==>
                store.retains == old(store.retains) + Ref(Slots()[index]) && store.releases == old(store.releases)
      ensures kind != TableElementType.GcRef || index >= Size() ==>
                store.retains == old(store.retains) && store.releases == old(store.releases)
    {
      SizeWithinMaximum();
      var i := ToUsize(index, width);
      if i.None? || i.value >= Size() {
        return None;
      }
      var word := Slots()[i.value];
      match kind {
        case Func =>
          r := Some(DecodeFuncRef(word, lazyInit));
        case GcRef =>
          if word == 0 {
            r := Some(TableElement.GcRef(None));
          } else {
            var c := store.CloneGcRef(word);
            r := Some(TableElement.GcRef(Some(c)));
          }
        case Cont =>
          r := Some(ContRef(HandleOf(word)));
      }
    }

    /**
      `set`: overwrites slot `index` with the encoding of `elem` (a raw store, with no
      write barrier for GC references); an out-of-range index changes nothing.
    */
    method Set(index: nat, elem: TableElement) returns (r: Result<(), ()>)
      requires Valid() && Storable(kind, elem) && WellFormed(elem) && index <= U64_MAX
      modifies this, Buffer()
      ensures Valid()
      ensures r.Ok? <==> index < old(Size())
      ensures r.Err? ==> Slots() == old(Slots())
      ensures r.Ok? ==> Slots() == old(Slots())[index := EncodeElement(kind, lazyInit, elem)]
      ensures r.Ok? ==> ElementAt(index) == Some(if elem.UninitFunc? && !lazyInit then FuncRef(None) else elem)
    {
      SizeWithinMaximum();
      var i := ToUsize(index, width);
      if i.None? || i.value >= Size() {
        return Err(());
      }
      WriteSlot(i.value, EncodeElement(kind, lazyInit, elem));
      return Ok(());
    }

    /**
      The resize step of `grow`: a static table only advances its size over words
      that are already zero; a dynamic table appends zero words. A static table's
      buffer is neither moved nor written.
    */
    method Resize(newSize: nat)
      requires Valid() && Size() <= newSize <= UsizeMax(width)
      requires Maximum().None? || newSize <= Maximum().value
      modifies this
      ensures Valid() && Slots() == old(Slots()) + Zeros(newSize - old(Size()))
    {
      match storage {
        case Static(data, _) =>
          assert data[..newSize] == data[..size] + Zeros(newSize - size);
          size := newSize;
        case Dynamic(_) =>
          elements := elements + Zeros(newSize - |elements|);
      }
    }

    /**
      `grow`: adds `delta` slots holding `init` and returns the old size, or returns
      `None` (a rejection, not a trap) when the new size overflows `usize`, the
      limiter denies it, or it exceeds the maximum. A `delta` of zero succeeds without
      consulting the limiter. Rejections and errors change nothing.
    */
    method Grow(delta: nat, init: TableElement, limiter: Limiter, store: GcStore, ghost owned: multiset<nat>)
      returns (r: Result<Option<nat>, Error>)
      requires Valid() && Storable(kind, init) && WellFormed(init) && delta <= U64_MAX
      modifies this, Buffer(), store
      ensures Valid()
      ensures r.Ok? && r.value.Some? <==> delta == 0 || GrowAccepted(old(Size()), delta, Maximum(), width, limiter)
      ensures r.Ok? && r.value.Some? ==>
                r.value.value == old(Size()) &&
                Slots() == old(Slots()) + seq(delta, _ => EncodeElement(kind, lazyInit, init))
      ensures r.Err? <==> delta != 0 && GrowFails(old(Size()), delta, Maximum(), width, limiter)
      ensures r.Err? ==> r.error == if delta > UsizeMax(width) then TableOutOfBoundsTrap else LimiterError
      ensures !(r.Ok? && r.value.Some?) || delta == 0 ==>
                Slots() == old(Slots()) && store.retains == old(store.retains) && store.releases == old(store.releases)
      ensures kind != TableElementType.GcRef ==>
                store.retains == old(store.retains) && store.releases == old(store.releases)
      ensures kind == TableElementType.GcRef && r.Ok? && r.value.Some? && delta != 0 ==>
                store.retains + old(store.releases) + Refs(old(Slots())) + Ref(EncodeElement(kind, lazyInit, init))
                == old(store.retains) + store.releases + Refs(Slots())
      ensures kind == TableElementType.GcRef && r.Ok? && r.value.Some? && delta != 0 &&
              Balanced(old(store.retains), old(store.releases), old(Slots()), owned + Ref(EncodeElement(kind, lazyInit, init))) ==>
                Balanced(store.retains, store.releases, Slots(), owned)
    {
      SizeWithinMaximum();
      var oldSize := Size();
      if delta == 0 {
        return Ok(Some(oldSize));
      }
      var d := ToUsize(delta, width);
      if d.None? {
        return Err(TableOutOfBoundsTrap);
      }
      if oldSize + d.value > UsizeMax(width) {
        // table_grow_failed: "overflow calculating new table size"
        return if limiter.growFailedIsFatal then Err(LimiterError) else Ok(None);
      }
      var newSize := oldSize + d.value;
      match limiter.growing(oldSize, newSize, Maximum()) {
        case Fail => return Err(LimiterError);
        case Deny => return Ok(None);
        case Allow =>
      }
      if Maximum().Some? && newSize > Maximum().value {
        // table_grow_failed: "Table maximum size exceeded"
        return if limiter.growFailedIsFatal then Err(LimiterError) else Ok(None);
      }
      ghost var s0, ret0, rel0 := Slots(), store.retains, store.releases;
      GrowTail(d.value, init, store);
      ghost var word := EncodeElement(kind, lazyInit, init);
      if kind == TableElementType.GcRef && Balanced(ret0, rel0, s0, owned + Ref(word)) {
        ConsumingKeepsBalance(ret0, rel0, s0, store.retains, store.releases, Slots(), word, owned);
      }
      return Ok(Some(oldSize));
    }

    /**
      The committing half of `grow`, once every check has passed: resize, then fill
      the new slots `[old size, new size)` with `init`.
    */
    method GrowTail(delta: nat, init: TableElement, store: GcStore)
      requires Valid() && Storable(kind, init) && WellFormed(init) && 0 < delta
      requires Size() + delta <= UsizeMax(width)
      requires Maximum().None? || Size() + delta <= Maximum().value
      modifies this, Buffer(), store
      ensures Valid() && Slots() == old(Slots()) + seq(delta, _ => EncodeElement(kind, lazyInit, init))
      ensures kind != TableElementType.GcRef ==>
                store.retains == old(store.retains) && store.releases == old(store.releases)
      ensures kind == TableElementType.GcRef ==>
                store.retains + old(store.releases) + Refs(old(Slots())) + Ref(EncodeElement(kind, lazyInit, init))
                == old(store.retains) + store.releases + Refs(Slots())
    {
      ghost var s0 := Slots();
      var oldSize := Size();
      Resize(oldSize + delta);
      RefsPadded(s0, delta);
      var filled := Fill(store, oldSize, init, delta, multiset{});
      assert filled.Ok?;
      OverwritesPadding(s0, delta, Slots(), EncodeElement(kind, lazyInit, init));
    }

    /**
      `copy_elements_within`: copies `[s, s + len)` onto `[d, d + len)` of this same
      table with the result of copying through an intermediate buffer; equal starts
      are a no-op. GC references go through write barriers, front to back when
      `d < s` and back to front otherwise, so that no source slot is overwritten
      before it is read.
    */
    method CopyElementsWithin(store: GcStore, d: nat, s: nat, len: nat)
      requires Valid() && d + len <= Size() && s + len <= Size()
      modifies this, Buffer(), store
      ensures Valid() && Overwrites(old(Slots()), Slots(), d, old(Slots())[s..s + len])
      ensures d == s ==> Slots() == old(Slots())
      ensures kind != TableElementType.GcRef || d == s ==>
                store.retains == old(store.retains) && store.releases == old(store.releases)
      ensures kind == TableElementType.GcRef ==>
                Accounted(old(store.retains), old(store.releases), old(Slots()), store.retains, store.releases, Slots())
    {
      if s == d {
        return;
      }
      match kind {
        case GcRef =>
          if d < s {
            CopyGcRefsForward(store, d, s, len);
          } else {
            CopyGcRefsBackward(store, d, s, len);
          }
        case _ =>
          WriteRange(d, Slots()[s..s + len]);
      }
    }

    /** The forward loop of `copy_elements_within`, for `d < s`. */
    method CopyGcRefsForward(store: GcStore, d: nat, s: nat, len: nat)
      requires Valid() && d < s && s + len <= Size()
      modifies this, Buffer(), store
      ensures Valid() && Overwrites(old(Slots()), Slots(), d, old(Slots())[s..s + len])
      ensures Accounted(old(store.retains), old(store.releases), old(Slots()), store.retains, store.releases, Slots())
    {
      ghost var s0, ret0, rel0 := Slots(), store.retains, store.releases;
      var e := s;
      while e < s + len
        invariant s <= e <= s + len
        invariant CopiedUpTo(store, d, s, e, ret0, rel0, s0)
      {
        CopyGcRefForwardNext(store, d, s, e, ret0, rel0, s0);
        e := e + 1;
      }
    }

    /**
      The invariant of the forward copy: words `s0[s..e]` have been written at `d`
      through barriers and the table is otherwise unchanged.
    */
    ghost predicate CopiedUpTo(store: GcStore, d: nat, s: nat, e: nat,
                               ret0: multiset<nat>, rel0: multiset<nat>, s0: seq<nat>)
      reads this, Buffer(), store
    {
      Valid() && d < s <= e <= |s0| && Overwrites(s0, Slots(), d, s0[s..e]) &&
      Accounted(ret0, rel0, s0, store.retains, store.releases, Slots())
    }

    /** One iteration of `CopyGcRefsForward`: copies word `e` onto slot `d + (e - s)`. */
    method CopyGcRefForwardNext(store: GcStore, d: nat, s: nat, e: nat,
                                ghost ret0: multiset<nat>, ghost rel0: multiset<nat>, ghost s0: seq<nat>)
      requires e < |s0| && CopiedUpTo(store, d, s, e, ret0, rel0, s0)
      modifies this, Buffer(), store
      ensures CopiedUpTo(store, d, s, e + 1, ret0, rel0, s0)
    {
      var src := Slots()[e];
      ForwardStep(s0, Slots(), d, s, e);
      WriteGcRef(store, d + (e - s), src, ret0, rel0, s0);
    }

    /** The reverse loop of `copy_elements_within`, for `d > s`. */
    method CopyGcRefsBackward(store: GcStore, d: nat, s: nat, len: nat)
      requires Valid() && s < d && d + len <= Size()
      modifies this, Buffer(), store
      ensures Valid() && Overwrites(old(Slots()), Slots(), d, old(Slots())[s..s + len])
      ensures Accounted(old(store.retains), old(store.releases), old(Slots()), store.retains, store.releases, Slots())
    {
      ghost var s0, ret0, rel0 := Slots(), store.retains, store.releases;
      var k := len;
      while k > 0
        invariant 0 <= k <= len
        invariant CopiedDownTo(store, d, s, len, k, ret0, rel0, s0)
      {
        k := k - 1;
        CopyGcRefBackwardNext(store, d, s, len, k, ret0, rel0, s0);
      }
    }

    /**
      The invariant of the reverse copy: words `s0[s + k..s + len]` have been written
      at `d + k` through barriers and the table is otherwise unchanged.
    */
    ghost predicate CopiedDownTo(store: GcStore, d: nat, s: nat, len: nat, k: nat,
                                 ret0: multiset<nat>, rel0: multiset<nat>, s0: seq<nat>)
      reads this, Buffer(), store
    {
      Valid() && s < d && k <= len && d + len <= |s0| &&
      Overwrites(s0, Slots(), d + k, s0[s + k..s + len]) &&
      Accounted(ret0, rel0, s0, store.retains, store.releases, Slots())
    }

    /** One iteration of `CopyGcRefsBackward`: copies word `s + k` onto slot `d + k`. */
    method CopyGcRefBackwardNext(store: GcStore, d: nat, s: nat, len: nat, k: nat,
                                 ghost ret0: multiset<nat>, ghost rel0: multiset<nat>, ghost s0: seq<nat>)
      requires k < len && CopiedDownTo(store, d, s, len, k + 1, ret0, rel0, s0)
      modifies this, Buffer(), store
      ensures CopiedDownTo(store, d, s, len, k, ret0, rel0, s0)
    {
      var src := Slots()[s + k];
      BackwardStep(s0, Slots(), d, s, len, k);
      WriteGcRef(store, d + k, src, ret0, rel0, s0);
    }

    /**
      `new_dynamic`: after `limit_new` accepts the type, a dynamic table of the
      type's element kind with `minimum` empty slots and the derived maximum.
    */
    static method NewDynamic(ty: TableType, tableLazyInit: bool, width: PointerWidth, limiter: Limiter)
      returns (r: Result<Table, Error>)
      requires ValidTableType(ty)
      ensures r.Err? <==> LimitNew(ty, width, limiter).Err?
      ensures r.Err? ==> r.error == LimitNew(ty, width, limiter).error
      ensures r.Ok? ==>
                fresh(r.value) && r.value.Valid() && r.value.width == width &&
                r.value.kind == WasmToTableType(ty.refType) &&
                r.value.lazyInit == (r.value.kind == TableElementType.Func && tableLazyInit) &&
                r.value.storage == Storage.Dynamic(DeclaredMaximum(ty, width)) &&
                r.value.Slots() == Zeros(ty.limits.min)
    {
      var limits := LimitNew(ty, width, limiter);
      if limits.Err? {
        return Err(limits.error);
      }
      LimitNewMinimumWithinMaximum(ty, width, limiter);
      var (minimum, maximum) := limits.value;
      var t := new Table.Dynamic(WasmToTableType(ty.refType), tableLazyInit, width, minimum, maximum);
      return Ok(t);
    }

    /**
      `new_static`: after `limit_new` accepts the type, a static table over the
      caller's zeroed buffer `data`, failing when the minimum exceeds the buffer's
      capacity. The table uses `min(data.Length, maximum)` words of the buffer.
    */
    static method NewStatic(ty: TableType, tableLazyInit: bool, width: PointerWidth, data: array<nat>, limiter: Limiter)
      returns (r: Result<Table, Error>)
      requires ValidTableType(ty) && data.Length <= UsizeMax(width)
      requires forall i :: 0 <= i < data.Length ==> data[i] == 0
      ensures r.Err? <==> LimitNew(ty, width, limiter).Err? || ty.limits.min > data.Length
      ensures r.Err? ==> r.error == if LimitNew(ty, width, limiter).Err? then LimitNew(ty, width, limiter).error
                                    else MinimumExceedsCapacity
      ensures r.Ok? ==>
                fresh(r.value) && r.value.Valid() && r.value.width == width &&
                r.value.kind == WasmToTableType(ty.refType) &&
                r.value.lazyInit == (r.value.kind == TableElementType.Func && tableLazyInit) &&
                r.value.storage == Storage.Static(data, Min(data.Length, DeclaredMaximum(ty, width).UnwrapOr(UsizeMax(width)))) &&
                r.value.Slots() == Zeros(ty.limits.min)
    {
      var limits := LimitNew(ty, width, limiter);
      if limits.Err? {
        return Err(limits.error);
      }
      LimitNewMinimumWithinMaximum(ty, width, limiter);
      var (minimum, maximum) := limits.value;
      var max := maximum.UnwrapOr(UsizeMax(width));
      if ty.limits.min > data.Length {
        return Err(MinimumExceedsCapacity);
      }
      var t := new Table.Static(WasmToTableType(ty.refType), tableLazyInit, width, data, Min(data.Length, max), minimum);
      return Ok(t);
    }

    /**
      `copy_elements`: copies `src[s..s + len]` onto `dst[d..d + len]` of a different
      table. Funcref and continuation words are copied as they are; GC references go
      through one write barrier per slot.
    */
    static method CopyElements(store: GcStore, dst: Table, src: Table, d: nat, s: nat, len: nat)
      requires dst.Valid() && src.Valid() && dst != src && dst.Buffer() !! src.Buffer()
      requires d + len <= dst.Size() && s + len <= src.Size()
      modifies dst, dst.Buffer(), store
      ensures dst.Valid() && Overwrites(old(dst.Slots()), dst.Slots(), d, src.Slots()[s..s + len])
      ensures dst.kind != TableElementType.GcRef ==>
                store.retains == old(store.retains) && store.releases == old(store.releases)
      ensures dst.kind == TableElementType.GcRef ==>
                Accounted(old(store.retains), old(store.releases), old(dst.Slots()), store.retains, store.releases, dst.Slots())
    {
      // The source is a different table, so reading its range up front reads the
      // same words as reading them one by one during the copy.
      var words := src.Slots()[s..s + len];
      match dst.kind {
        case GcRef =>
          dst.WriteGcRefRange(store, d, words);
        case _ =>
          dst.WriteRange(d, words);
      }
    }

    /**
      `copy` (the `table.copy` instruction): traps, changing nothing, unless both
      `[src_index, src_index + len)` fits the source and `[dst_index, dst_index + len)`
      fits the destination. Otherwise the destination range receives the source
      range as it was before the call, also when both are the same table.
    */
    static method Copy(store: GcStore, dstTable: Table, srcTable: Table, dstIndex: nat, srcIndex: nat, len: nat,
                       ghost owned: multiset<nat>)
      returns (r: Result<(), Trap>)
      requires dstTable.Valid() && srcTable.Valid()
      requires dstTable.kind == srcTable.kind && dstTable.width == srcTable.width
      requires dstTable.kind == TableElementType.Func ==> dstTable.lazyInit == srcTable.lazyInit
      requires dstTable != srcTable ==> dstTable.Buffer() !! srcTable.Buffer()
      requires dstIndex <= U64_MAX && srcIndex <= U64_MAX && len <= U64_MAX
      modifies dstTable, dstTable.Buffer(), store
      ensures dstTable.Valid() && srcTable.Valid()
      ensures r.Err? <==> srcIndex + len > old(srcTable.Size()) || dstIndex + len > old(dstTable.Size())
      ensures r.Err? ==> dstTable.Slots() == old(dstTable.Slots())
      ensures r.Ok? ==>
                Overwrites(old(dstTable.Slots()), dstTable.Slots(), dstIndex, old(srcTable.Slots())[srcIndex..srcIndex + len])
      ensures dstTable != srcTable ==> srcTable.Slots() == old(srcTable.Slots())
      ensures dstTable.kind != TableElementType.GcRef || r.Err? ==>
                store.retains == old(store.retains) && store.releases == old(store.releases)
      ensures dstTable.kind == TableElementType.GcRef ==>
                Accounted(old(store.retains), old(store.releases), old(dstTable.Slots()),
                          store.retains, store.releases, dstTable.Slots())
      ensures dstTable.kind == TableElementType.GcRef &&
              Balanced(old(store.retains), old(store.releases), old(dstTable.Slots()), owned) ==>
                Balanced(store.retains, store.releases, dstTable.Slots(), owned)
    {
      dstTable.SizeWithinMaximum();
      srcTable.SizeWithinMaximum();
      if !CopyInBounds(dstIndex, srcIndex, len, dstTable.Size(), srcTable.Size(), dstTable.width) {
        return Err(TableOutOfBounds);
      }
      CopyRanges(store, dstTable, srcTable, dstIndex, srcIndex, len, owned);
      return Ok(());
    }

    /**
      The in-bounds half of `copy`: within one table when both are the same object
      (`ptr::eq`), and between two tables otherwise.
    */
    static method CopyRanges(store: GcStore, dstTable: Table, srcTable: Table, d: nat, s: nat, len: nat,
                             ghost owned: multiset<nat>)
      requires dstTable.Valid() && srcTable.Valid() && dstTable.kind == srcTable.kind
      requires dstTable.kind == TableElementType.Func ==> dstTable.lazyInit == srcTable.lazyInit
      requires dstTable != srcTable ==> dstTable.Buffer() !! srcTable.Buffer()
      requires d + len <= dstTable.Size() && s + len <= srcTable.Size()
      modifies dstTable, dstTable.Buffer(), store
      ensures dstTable.Valid() && srcTable.Valid()
      ensures Overwrites(old(dstTable.Slots()), dstTable.Slots(), d, old(srcTable.Slots())[s..s + len])
      ensures dstTable != srcTable ==> srcTable.Slots() == old(srcTable.Slots())
      ensures dstTable.kind != TableElementType.GcRef ==>
                store.retains == old(store.retains) && store.releases == old(store.releases)
      ensures dstTable.kind == TableElementType.GcRef ==>
                Accounted(old(store.retains), old(store.releases), old(dstTable.Slots()),
                          store.retains, store.releases, dstTable.Slots())
      ensures dstTable.kind == TableElementType.GcRef &&
              Balanced(old(store.retains), old(store.releases), old(dstTable.Slots()), owned) ==>
                Balanced(store.retains, store.releases, dstTable.Slots(), owned)
    {
      ghost var s0, ret0, rel0 := dstTable.Slots(), store.retains, store.releases;
      if dstTable == srcTable {
        dstTable.CopyElementsWithin(store, d, s, len);
      } else {
        CopyElements(store, dstTable, srcTable, d, s, len);
      }
      if dstTable.kind == TableElementType.GcRef && Balanced(ret0, rel0, s0, owned) {
        AccountedKeepsBalance(ret0, rel0, s0, store.retains, store.releases, dstTable.Slots(), owned);
      }
    }
  }
}
