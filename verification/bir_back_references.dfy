/** The back references of a BIR element (compiler/ir/bir/tree/src/org/jetbrains/kotlin/bir/BirElementBase.kt):
    the elements that refer to this one, stored as nothing, a single element, or an array whose
    occupied slots come first. The source keeps `backReferencesArrayFullness`, an approximate
    fraction from which `findBackReferencesArrayCount` starts its search for the first null slot;
    the model computes that first null slot directly. Elements are compared by identity in the
    source (`===`); the model's elements are values, compared with `==`. */
module BirBackReferences {
  import opened Wrappers
  import opened BirFlags

  datatype BackRefs<E> = NoRefs | Single(element: E) | Many(slots: seq<Option<E>>)

  /** `findBackReferencesArrayCount`: the first null slot, or the array's size when it is full. */
  function Count<E>(slots: seq<Option<E>>): (n: nat)
    ensures n <= |slots|
    ensures forall i | 0 <= i < n :: slots[i].Some?
    ensures n < |slots| ==> slots[n].None?
  {
    if |slots| == 0 || slots[0].None? then 0 else 1 + Count(slots[1..])
  }

  /** The registered elements, in slot order. */
  function Elements<E>(refs: BackRefs<E>): (es: seq<E>)
    ensures refs.Many? ==> |es| == Count(refs.slots)
    ensures refs.Many? ==> forall i | 0 <= i < |es| :: refs.slots[i] == Some(es[i])
  {
    match refs
    case NoRefs => []
    case Single(e) => [e]
    case Many(slots) => seq(Count(slots), i requires 0 <= i < Count(slots) => slots[i].value)
  }

  /** The array has at least the two slots it is created with, and only null slots follow the
      occupied ones. */
  ghost predicate Packed<E>(slots: seq<Option<E>>) {
    |slots| >= 2 && forall i | Count(slots) <= i < |slots| :: slots[i].None?
  }

  ghost predicate NoDuplicates<E>(es: seq<E>) {
    forall i, j | 0 <= i < j < |es| :: es[i] != es[j]
  }

  ghost predicate Valid<E>(refs: BackRefs<E>) {
    (refs.Many? ==> Packed(refs.slots)) && NoDuplicates(Elements(refs))
  }

  /** What lets registration skip the search: an element that is already registered here carries
      `FLAG_HAS_BEEN_REGISTERED_AS_BACK_REFERENCE`. */
  ghost predicate FlagCovers<E>(refs: BackRefs<E>, e: E, referrerFlags: bv8) {
    e in Elements(refs) ==> HasFlag(referrerFlags, FLAG_HAS_BEEN_REGISTERED_AS_BACK_REFERENCE)
  }

  /** The size a full array grows to: 2, 3, 4, 6, 9, 13, ... */
  function Grown(size: nat): (n: nat)
    ensures size >= 2 ==> n > size
  {
    size * 3 / 2
  }

  function Nulls<E>(n: nat): (s: seq<Option<E>>)
    ensures |s| == n && forall i | 0 <= i < n :: s[i].None?
  {
    seq(n, _ => None)
  }

  /** Storing `e` in the first null slot appends it to the registered elements. */
  lemma StoreAppends<E>(slots: seq<Option<E>>, e: E)
    requires Packed(slots) && Count(slots) < |slots|
    ensures var s := slots[Count(slots) := Some(e)];
            && Packed(s) && Count(s) == Count(slots) + 1
            && Elements(Many(s)) == Elements(Many(slots)) + [e]
  {
    var n := Count(slots);
    var s := slots[n := Some(e)];
    CountIs(s, n + 1);
  }

  /** `Count` is the one index below which every slot is occupied and at which a null sits. */
  lemma {:induction false} CountIs<E>(s: seq<Option<E>>, n: nat)
    requires n <= |s|
    requires forall i | 0 <= i < n :: s[i].Some?
    requires n < |s| ==> s[n].None?
    ensures Count(s) == n
    decreases n
  {
    if n > 0 {
      CountIs(s[1..], n - 1);
    }
  }

  /** Growing a full array keeps its elements and adds null slots. */
  lemma GrowKeeps<E>(slots: seq<Option<E>>)
    requires Packed(slots) && Count(slots) == |slots|
    ensures var s := slots + Nulls(Grown(|slots|) - |slots|);
            && Packed(s) && Count(s) == |slots| < |s|
            && Elements(Many(s)) == Elements(Many(slots))
  {
    var s := slots + Nulls(Grown(|slots|) - |slots|);
    CountIs(s, |slots|);
  }

  /** `registerBackReference`: records `e` as referring to this element and sets the referrer's
      registered flag. A single different element becomes a two-slot array. In the array case a
      referrer with the flag set is searched for from slot 0 and not added again if present;
      one without it is stored at the first null slot directly. A full array grows to 3/2 its
      size first. */
  method Register<E(==)>(refs: BackRefs<E>, e: E, referrerFlags: bv8) returns (r: BackRefs<E>, flags: bv8)
    requires refs.Many? ==> |refs.slots| >= 2
    ensures flags == SetFlag(referrerFlags, FLAG_HAS_BEEN_REGISTERED_AS_BACK_REFERENCE, true)
    ensures refs.NoRefs? ==> r == Single(e)
    ensures refs.Single? ==> r == if refs.element == e then refs else Many([Some(refs.element), Some(e)])
    ensures refs.Many? ==> r.Many? && |r.slots| >= |refs.slots|
    ensures Valid(refs) && FlagCovers(refs, e, referrerFlags) ==>
              && Valid(r)
              && Elements(r) == (if e in Elements(refs) then Elements(refs) else Elements(refs) + [e])
    ensures Valid(refs) && refs.Many? && FlagCovers(refs, e, referrerFlags) ==>
              |r.slots| == if e !in Elements(refs) && Count(refs.slots) == |refs.slots| then Grown(|refs.slots|) else |refs.slots|
  {
    flags := SetFlag(referrerFlags, FLAG_HAS_BEEN_REGISTERED_AS_BACK_REFERENCE, true);
    match refs
    case NoRefs =>
      r := Single(e);
    case Single(x) =>
      r := if x == e then refs else Many([Some(x), Some(e)]);
      if x != e {
        assert Count([Some(x), Some(e)]) == 2 by {
          CountIs([Some(x), Some(e)], 2);
        }
      }
    case Many(slots) =>
      var alreadyRegistered := false;
      var count := 0;
      if HasFlag(referrerFlags, FLAG_HAS_BEEN_REGISTERED_AS_BACK_REFERENCE) {
        // The scan stops at the first null slot or at `e` itself.
        while count < |slots| && slots[count].Some? && slots[count] != Some(e)
          invariant count <= |slots|
          invariant forall i | 0 <= i < count :: slots[i].Some? && slots[i] != Some(e)
        {
          count := count + 1;
        }
        alreadyRegistered := count < |slots| && slots[count] == Some(e);
        if alreadyRegistered {
          assert Elements(Many(slots))[count] == e;
        } else {
          CountIs(slots, count);
        }
      } else {
        count := Count(slots);
      }
      var grown := slots;
      if !alreadyRegistered {
        if count == |slots| {
          grown := slots + Nulls(Grown(|slots|) - |slots|);
        }
        grown := grown[count := Some(e)];
      }
      r := Many(grown);
      RegisterManySound(slots, e, referrerFlags, alreadyRegistered, count, grown);
  }

  /** The array case of `Register`, given what its search found. */
  lemma RegisterManySound<E>(slots: seq<Option<E>>, e: E, referrerFlags: bv8, alreadyRegistered: bool, count: nat, grown: seq<Option<E>>)
    requires |slots| >= 2 && count <= |slots|
    requires HasFlag(referrerFlags, FLAG_HAS_BEEN_REGISTERED_AS_BACK_REFERENCE) ==>
               (alreadyRegistered <==> e in Elements(Many(slots))) && (!alreadyRegistered ==> count == Count(slots))
    requires !HasFlag(referrerFlags, FLAG_HAS_BEEN_REGISTERED_AS_BACK_REFERENCE) ==> !alreadyRegistered && count == Count(slots)
    requires alreadyRegistered ==> grown == slots
    requires !alreadyRegistered ==>
               grown == (if count == |slots| then slots + Nulls(Grown(|slots|) - |slots|) else slots)[count := Some(e)]
    ensures |grown| >= |slots|
    ensures Valid(Many(slots)) && FlagCovers(Many(slots), e, referrerFlags) ==>
              && Valid(Many(grown))
              && Elements(Many(grown)) == (if e in Elements(Many(slots)) then Elements(Many(slots)) else Elements(Many(slots)) + [e])
              && |grown| == if e !in Elements(Many(slots)) && Count(slots) == |slots| then Grown(|slots|) else |slots|
  {
    if Valid(Many(slots)) && FlagCovers(Many(slots), e, referrerFlags) && !alreadyRegistered {
      assert e !in Elements(Many(slots));
      var before := if count == |slots| then slots + Nulls(Grown(|slots|) - |slots|) else slots;
      if count == |slots| {
        GrowKeeps(slots);
      }
      StoreAppends(before, e);
      AppendKeepsDistinct(Elements(Many(slots)), e);
    }
  }

  lemma AppendKeepsDistinct<E>(es: seq<E>, e: E)
    requires NoDuplicates(es) && e !in es
    ensures NoDuplicates(es + [e])
  {
  }

  /** Registering the same element twice leaves the references as the first registration did. */
  method RegisterTwice<E(==)>(refs: BackRefs<E>, e: E, referrerFlags: bv8) returns (once: BackRefs<E>, twice: BackRefs<E>)
    requires Valid(refs) && FlagCovers(refs, e, referrerFlags)
    requires refs.Many? ==> |refs.slots| >= 2
    ensures Elements(twice) == Elements(once)
    ensures e in Elements(once)
  {
    var flags;
    once, flags := Register(refs, e, referrerFlags);
    assert e in Elements(once) by {
      if refs.Single? && refs.element != e {
        assert Elements(once)[1] == e;
      }
    }
    assert HasFlag(flags, FLAG_HAS_BEEN_REGISTERED_AS_BACK_REFERENCE) by {
      SetThenHas(referrerFlags, FLAG_HAS_BEEN_REGISTERED_AS_BACK_REFERENCE, true);
    }
    twice, flags := Register(once, e, flags);
    if once.Single? {
      assert once.element == e;
    }
  }

  const BAD_INDEX := "Failed requirement."

  /** `removeBackReference`: in the array case the last registered element moves into slot
      `index` and the last occupied slot is cleared; `index` must lie below the count. Otherwise
      `index` must be 0 and there must be a single element, which is dropped. A failed
      `require`, or a negative index into the array, is a failure. */
  function Remove<E>(refs: BackRefs<E>, index: int): (r: Result<BackRefs<E>>)
    ensures r.Ok? <==> if refs.Many? then 0 <= index < Count(refs.slots) else index == 0 && refs.Single?
    ensures r.Ok? && refs.Single? ==> r.value == NoRefs
    ensures r.Ok? && refs.Many? ==> r.value.Many? && |r.value.slots| == |refs.slots|
  {
    match refs
    case Many(slots) =>
      var count := Count(slots);
      if index < 0 || count <= index then Failure(BAD_INDEX)
      else
        var last := count - 1;
        var moved := if index != last then slots[index := slots[last]] else slots;
        Ok(Many(moved[last := None]))
    case _ =>
      if index != 0 then Failure(BAD_INDEX)
      else if refs.NoRefs? then Failure(BAD_INDEX)
      else Ok(NoRefs)
  }

  /** Removal takes out exactly the element at `index`: the last element takes its place, the
      others keep theirs, and the array stays packed and free of duplicates. */
  lemma RemoveSound<E>(refs: BackRefs<E>, index: nat)
    requires Valid(refs)
    requires Remove(refs, index).Ok?
    ensures var es := Elements(refs);
            var r := Remove(refs, index).value;
            && Valid(r)
            && |Elements(r)| == |es| - 1
            && multiset(Elements(r)) == multiset(es) - multiset{es[index]}
            && (index < |es| - 1 ==> Elements(r) == es[..index] + [es[|es| - 1]] + es[index + 1..|es| - 1])
            && (index == |es| - 1 ==> Elements(r) == es[..index])
  {
    if refs.Many? {
      RemoveManySound(refs.slots, index);
    }
  }

  /** The array left by removing slot `index`: slot `index` holds what the last occupied slot
      held, and that slot is cleared. */
  lemma RemoveManySlots<E>(slots: seq<Option<E>>, index: nat)
    requires Packed(slots) && index < Count(slots)
    ensures var n := Count(slots);
            var s := Remove(Many(slots), index).value.slots;
            && Packed(s) && Count(s) == n - 1
            && (forall i | 0 <= i < n - 1 :: s[i] == if i == index then slots[n - 1] else slots[i])
  {
    var n := Count(slots);
    var s := Remove(Many(slots), index).value.slots;
    assert forall i | 0 <= i < n - 1 :: s[i] == if i == index then slots[n - 1] else slots[i];
    assert forall i | n - 1 <= i < |s| :: s[i].None?;
    CountIs(s, n - 1);
  }

  lemma RemoveManySound<E>(slots: seq<Option<E>>, index: nat)
    requires Valid(Many(slots)) && index < Count(slots)
    ensures var es := Elements(Many(slots));
            var r := Remove(Many(slots), index).value;
            && Valid(r)
            && |Elements(r)| == |es| - 1
            && multiset(Elements(r)) == multiset(es) - multiset{es[index]}
            && (index < |es| - 1 ==> Elements(r) == es[..index] + [es[|es| - 1]] + es[index + 1..|es| - 1])
            && (index == |es| - 1 ==> Elements(r) == es[..index])
  {
    var es := Elements(Many(slots));
    var s := Remove(Many(slots), index).value.slots;
    RemoveManySlots(slots, index);
    var rs := Elements(Many(s));
    SwappedElements(slots, s, index);
    SwapRemoveShape(es, rs, index);
    SwapRemoveDistinct(es, rs, index);
  }

  /** The elements of an array whose slot `index` took the last occupied slot's element. */
  lemma SwappedElements<E>(slots: seq<Option<E>>, s: seq<Option<E>>, index: nat)
    requires index < Count(slots) && Count(s) == Count(slots) - 1
    requires forall i | 0 <= i < Count(slots) - 1 :: s[i] == if i == index then slots[Count(slots) - 1] else slots[i]
    ensures var es := Elements(Many(slots));
            var rs := Elements(Many(s));
            && |rs| == |es| - 1
            && forall i | 0 <= i < |rs| :: rs[i] == if i == index then es[|es| - 1] else es[i]
  {
    var es := Elements(Many(slots));
    var rs := Elements(Many(s));
    forall i | 0 <= i < |rs|
      ensures rs[i] == if i == index then es[|es| - 1] else es[i]
    {
      assert Some(rs[i]) == s[i];
      if i == index {
        assert s[i] == slots[|es| - 1] == Some(es[|es| - 1]);
      } else {
        assert s[i] == slots[i] == Some(es[i]);
      }
    }
  }

  /** The elements after a swap-with-last removal, as sequences and as multisets. */
  lemma SwapRemoveShape<E>(es: seq<E>, rs: seq<E>, index: nat)
    requires index < |es| && |rs| == |es| - 1
    requires forall i | 0 <= i < |rs| :: rs[i] == if i == index then es[|es| - 1] else es[i]
    ensures multiset(rs) == multiset(es) - multiset{es[index]}
    ensures index < |es| - 1 ==> rs == es[..index] + [es[|es| - 1]] + es[index + 1..|es| - 1]
    ensures index == |es| - 1 ==> rs == es[..index]
  {
    var last := |es| - 1;
    if index < last {
      assert rs == es[..index] + [es[last]] + es[index + 1..last];
      assert es == es[..index] + [es[index]] + es[index + 1..last] + [es[last]];
    } else {
      assert rs == es[..index];
      assert es == es[..index] + [es[index]];
    }
  }

  lemma SwapRemoveDistinct<E>(es: seq<E>, rs: seq<E>, index: nat)
    requires index < |es| && |rs| == |es| - 1 && NoDuplicates(es)
    requires forall i | 0 <= i < |rs| :: rs[i] == if i == index then es[|es| - 1] else es[i]
    ensures NoDuplicates(rs)
  {
    var last := |es| - 1;
    forall i, j | 0 <= i < j < |rs|
      ensures rs[i] != rs[j]
    {
      var gi := if i == index then last else i;
      var gj := if j == index then last else j;
      assert rs[i] == es[gi] && rs[j] == es[gj];
      if gi < gj {
        assert es[gi] != es[gj];
      } else {
        assert es[gj] != es[gi];
      }
    }
  }
}
