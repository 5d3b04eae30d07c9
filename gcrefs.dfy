/**
  The GC store as the table sees it: a collaborator that retains and releases
  references. Its bookkeeping is modelled by two ever-growing multisets, the
  references it has retained and those it has released, so that the net count
  of a handle is its multiplicity in `retains` minus that in `releases`.
*/
module GcRefs {

  /** The references held by one slot word: none for the zero word. */
  function Ref(slot: nat): (m: multiset<nat>)
    ensures slot == 0 ==> m == multiset{}
    ensures slot != 0 ==> m == multiset{slot}
  {
    if slot == 0 then multiset{} else multiset{slot}
  }

  /** The references held by a sequence of slot words, zero words excluded. */
  function Refs(s: seq<nat>): multiset<nat>
  {
    if s == [] then multiset{} else Ref(s[0]) + Refs(s[1..])
  }

  lemma {:induction false} RefsConcat(a: seq<nat>, b: seq<nat>)
    ensures Refs(a + b) == Refs(a) + Refs(b)
  {
    if a == [] {
      assert a + b == b;
    } else {
      assert (a + b)[1..] == a[1..] + b;
      RefsConcat(a[1..], b);
    }
  }

  /** A run of zero words holds no references. */
  lemma {:induction false} RefsZeros(n: nat)
    ensures Refs(seq(n, _ => 0)) == multiset{}
  {
    if n > 0 {
      assert seq(n, _ => 0)[1..] == seq(n - 1, _ => 0);
      RefsZeros(n - 1);
    }
  }

  /** A single word holds exactly its own reference. */
  lemma RefsSingleton(v: nat)
    ensures Refs([v]) == Ref(v)
  {
    assert [v][1..] == [];
  }

  /** The first `i + 1` words are the first `i` followed by word `i`. */
  lemma TakeSnoc(s: seq<nat>, i: nat)
    requires i < |s|
    ensures s[..i + 1] == s[..i] + [s[i]]
  {
    forall j | 0 <= j < i + 1 ensures s[..i + 1][j] == (s[..i] + [s[i]])[j] {
    }
  }

  /** The references of `s` split around slot `i`. */
  lemma RefsSplit(s: seq<nat>, i: nat)
    requires i < |s|
    ensures Refs(s) == Refs(s[..i]) + Ref(s[i]) + Refs(s[i + 1..])
  {
    assert s == s[..i + 1] + s[i + 1..];
    TakeSnoc(s, i);
    RefsConcat(s[..i + 1], s[i + 1..]);
    RefsConcat(s[..i], [s[i]]);
    RefsSingleton(s[i]);
  }

  /** Overwriting one slot trades the old occupant's reference for the new one's. */
  lemma RefsUpdate(s: seq<nat>, i: nat, v: nat)
    requires i < |s|
    ensures Refs(s[i := v]) + Ref(s[i]) == Refs(s) + Ref(v)
  {
    var t := s[i := v];
    RefsSplit(s, i);
    RefsSplit(t, i);
    assert t[..i] == s[..i] && t[i + 1..] == s[i + 1..];
    forall x ensures (Refs(t) + Ref(s[i]))[x] == (Refs(s) + Ref(v))[x] {
    }
  }

  /**
    The accounting identity that a sequence of write barriers keeps: the store's
    net change in retained references equals the net change in references held by
    the slots, going from `(ret0, rel0, s0)` to `(ret1, rel1, s1)`.
  */
  ghost predicate Accounted(ret0: multiset<nat>, rel0: multiset<nat>, s0: seq<nat>,
                            ret1: multiset<nat>, rel1: multiset<nat>, s1: seq<nat>)
  {
    ret1 + rel0 + Refs(s0) == ret0 + rel1 + Refs(s1)
  }

  /**
    Ownership balance: every reference the store counts as live is held either by a
    slot of the table or by the callers (`owned`).
  */
  ghost predicate Balanced(retains: multiset<nat>, releases: multiset<nat>, slots: seq<nat>, owned: multiset<nat>)
  {
    retains == releases + Refs(slots) + owned
  }

  /** An accounted change keeps the balance with the callers' references unchanged. */
  lemma AccountedKeepsBalance(ret0: multiset<nat>, rel0: multiset<nat>, s0: seq<nat>,
                              ret1: multiset<nat>, rel1: multiset<nat>, s1: seq<nat>, owned: multiset<nat>)
    requires Accounted(ret0, rel0, s0, ret1, rel1, s1)
    requires Balanced(ret0, rel0, s0, owned)
    ensures Balanced(ret1, rel1, s1, owned)
  {
    forall x ensures ret1[x] == (rel1 + Refs(s1) + owned)[x] {
      assert (ret1 + rel0 + Refs(s0))[x] == (ret0 + rel1 + Refs(s1))[x];
    }
  }

  /** One write barrier on slot `i` of `s`, storing `v`, keeps the accounting identity. */
  lemma AccountedStep(ret0: multiset<nat>, rel0: multiset<nat>, s0: seq<nat>,
                      ret: multiset<nat>, rel: multiset<nat>, s: seq<nat>, i: nat, v: nat,
                      ret1: multiset<nat>, rel1: multiset<nat>, s1: seq<nat>)
    requires i < |s|
    requires Accounted(ret0, rel0, s0, ret, rel, s)
    requires ret1 == ret + Ref(v) && rel1 == rel + Ref(s[i]) && s1 == s[i := v]
    ensures Accounted(ret0, rel0, s0, ret1, rel1, s1)
  {
    RefsUpdate(s, i, v);
    forall x ensures (ret1 + rel0 + Refs(s0))[x] == (ret0 + rel1 + Refs(s1))[x] {
      assert (ret + rel0 + Refs(s0))[x] == (ret0 + rel + Refs(s))[x];
      assert (Refs(s[i := v]) + Ref(s[i]))[x] == (Refs(s) + Ref(v))[x];
    }
  }

  /** Releasing the caller's reference `h` after accounted writes: `h` is consumed. */
  lemma AccountedDrop(ret0: multiset<nat>, rel0: multiset<nat>, s0: seq<nat>,
                      ret: multiset<nat>, rel: multiset<nat>, s: seq<nat>, h: nat)
    requires Accounted(ret0, rel0, s0, ret, rel, s)
    ensures ret + rel0 + Refs(s0) + Ref(h) == ret0 + (rel + Ref(h)) + Refs(s)
  {
    forall x ensures (ret + rel0 + Refs(s0) + Ref(h))[x] == (ret0 + (rel + Ref(h)) + Refs(s))[x] {
      assert (ret + rel0 + Refs(s0))[x] == (ret0 + rel + Refs(s))[x];
    }
  }

  /**
    A call that writes accounted barriers and then releases the caller's reference
    `h` (as `fill` does) keeps the balance, with `h` removed from the callers' share.
  */
  lemma ConsumingKeepsBalance(ret0: multiset<nat>, rel0: multiset<nat>, s0: seq<nat>,
                              ret1: multiset<nat>, rel1: multiset<nat>, s1: seq<nat>,
                              h: nat, owned: multiset<nat>)
    requires ret1 + rel0 + Refs(s0) + Ref(h) == ret0 + rel1 + Refs(s1)
    requires Balanced(ret0, rel0, s0, owned + Ref(h))
    ensures Balanced(ret1, rel1, s1, owned)
  {
    forall x ensures ret1[x] == (rel1 + Refs(s1) + owned)[x] {
      assert (ret1 + rel0 + Refs(s0) + Ref(h))[x] == (ret0 + rel1 + Refs(s1))[x];
    }
    assert ret1 == rel1 + Refs(s1) + owned;
  }

  class GcStore {
    /** Every reference the store has retained (cloned or written into a slot). */
    ghost var retains: multiset<nat>
    /** Every reference the store has released (dropped or overwritten in a slot). */
    ghost var releases: multiset<nat>

    constructor ()
      ensures retains == multiset{} && releases == multiset{}
    {
      retains, releases := multiset{}, multiset{};
    }

    /** `clone_gc_ref`: a new reference to the same object, retained once more. */
    method CloneGcRef(r: nat) returns (c: nat)
      requires r != 0
      modifies this
      ensures c == r
      ensures retains == old(retains) + multiset{r} && releases == old(releases)
    {
      c := r;
      retains := retains + multiset{r};
    }

    /** `drop_gc_ref`: the caller gives up its reference. */
    method DropGcRef(r: nat)
      requires r != 0
      modifies this
      ensures retains == old(retains) && releases == old(releases) + multiset{r}
    {
      releases := releases + multiset{r};
    }

    /**
      The bookkeeping half of `write_gc_ref(slot, new)`: the slot's previous
      occupant is released and `incoming` (the `new` reference) is retained. Returns the word to store.
    */
    method WriteBarrier(occupant: nat, incoming: nat) returns (stored: nat)
      modifies this
      ensures stored == incoming
      ensures retains == old(retains) + Ref(incoming) && releases == old(releases) + Ref(occupant)
    {
      retains := retains + Ref(incoming);
      releases := releases + Ref(occupant);
      stored := incoming;
    }
  }
}
