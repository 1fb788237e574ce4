/** The dynamic properties of a BIR element (compiler/ir/bir/tree/src/org/jetbrains/kotlin/bir/BirElementBase.kt):
    an "array map" `[key, value, key, value, ..., null, ...]` stored in the element, or no array
    at all. The model keeps the array as a sequence of key/value slots (slot `i` is cells `2i` and
    `2i + 1`), and a null as `None`. A key may be a temporary property that is only valid during one
    compiler phase; `outdated(k)` says that `k` is such a key and its phase is over. Lookups prune
    outdated keys as they go.

    Two pieces are modelled twice: as the source writes them (`RemoveAtAsWritten`,
    `FindFromAsWritten`) and corrected (`RemoveAt`, `FindFrom`). The rest of the model uses the
    corrected ones; the lemmas at the end exhibit what goes wrong with the others. */
module BirDynamicProperties {
  import opened Wrappers

  /** One key/value pair of the array map. */
  datatype Slot<K, V> = Slot(key: Option<K>, value: Option<V>)

  type ArrayMap<K, V> = seq<Slot<K, V>>

  /** What `findDynamicPropertyIndex` reports: the slot of the key (the source returns its
      array index `2 * slot`), or the first free slot (the source returns `-(2 * slot) - 1`). */
  datatype Probe = Found(slot: nat) | Absent(free: nat)

  function Frees<K, V>(n: nat): (s: ArrayMap<K, V>)
    ensures |s| == n
    ensures forall i | 0 <= i < n :: s[i] == Slot(None, None)
  {
    seq(n, _ => Slot(None, None))
  }

  /** The number of leading occupied slots: the first null key ends the map. */
  function Used<K, V>(a: ArrayMap<K, V>): (n: nat)
    ensures n <= |a|
    ensures forall i | 0 <= i < n :: a[i].key.Some?
    ensures n < |a| ==> a[n].key.None?
  {
    if |a| == 0 || a[0].key.None? then 0 else 1 + Used(a[1..])
  }

  /** Occupied slots first, then only free ones; the array is never empty. */
  ghost predicate Layout<K, V>(a: ArrayMap<K, V>) {
    |a| > 0 && forall i | Used(a) <= i < |a| :: a[i] == Slot(None, None)
  }

  /** No key occupies two slots. */
  ghost predicate Distinct<K, V>(a: ArrayMap<K, V>) {
    forall i, j | 0 <= i < j < Used(a) :: a[i].key != a[j].key
  }

  ghost predicate Valid<K, V>(a: ArrayMap<K, V>) {
    Layout(a) && Distinct(a)
  }

  /** Some occupied slot holds `k`. */
  function Contains<K(==), V>(a: ArrayMap<K, V>, k: K): bool {
    if |a| == 0 || a[0].key.None? then false else a[0].key.value == k || Contains(a[1..], k)
  }

  /** The reference lookup: the value after the first slot holding `k`, scanning up to the first
      free slot and pruning nothing. */
  function Lookup<K(==), V>(a: ArrayMap<K, V>, k: K): Option<V> {
    if |a| == 0 || a[0].key.None? then None
    else if a[0].key.value == k then a[0].value
    else Lookup(a[1..], k)
  }

  lemma {:induction false} ContainsAt<K, V>(a: ArrayMap<K, V>, k: K)
    ensures Contains(a, k) <==> exists i | 0 <= i < Used(a) :: a[i].key == Some(k)
    decreases |a|
  {
    if |a| > 0 && a[0].key.Some? {
      ContainsAt(a[1..], k);
      if Contains(a[1..], k) {
        var i :| 0 <= i < Used(a[1..]) && a[1..][i].key == Some(k);
        assert a[i + 1].key == Some(k);
      }
      if exists i | 0 <= i < Used(a) :: a[i].key == Some(k) {
        var i :| 0 <= i < Used(a) && a[i].key == Some(k);
        if i > 0 {
          assert a[1..][i - 1].key == Some(k);
        }
      }
    }
  }

  /** Lookups in occupied slots followed by more slots: the first part answers if it holds the key. */
  lemma {:induction false} LookupAppend<K, V>(s: ArrayMap<K, V>, t: ArrayMap<K, V>, k: K)
    requires forall i | 0 <= i < |s| :: s[i].key.Some?
    ensures Lookup(s + t, k) == if Contains(s, k) then Lookup(s, k) else Lookup(t, k)
    ensures Contains(s + t, k) == (Contains(s, k) || Contains(t, k))
    decreases |s|
  {
    if |s| > 0 {
      assert (s + t)[1..] == s[1..] + t;
      LookupAppend(s[1..], t, k);
    } else {
      assert s + t == t;
    }
  }

  lemma {:induction false} FreesHoldNothing<K, V>(n: nat, k: K)
    ensures !Contains(Frees<K, V>(n), k) && Lookup(Frees<K, V>(n), k) == None
  {
  }

  /** The occupied slots of `s` whose keys are not outdated, in order. */
  function Live<K, V>(s: ArrayMap<K, V>, outdated: K -> bool): (r: ArrayMap<K, V>)
    ensures |r| <= |s|
    ensures forall i | 0 <= i < |r| :: r[i].key.Some? && !outdated(r[i].key.value)
  {
    if |s| == 0 then []
    else
      var rest := Live(s[1..], outdated);
      if s[0].key.None? || outdated(s[0].key.value) then rest else [s[0]] + rest
  }

  /** Every slot `Live` keeps is a slot of its input. */
  lemma {:induction false} LiveFrom<K, V>(s: ArrayMap<K, V>, outdated: K -> bool, t: nat) returns (m: nat)
    requires forall i | 0 <= i < |s| :: s[i].key.Some?
    requires t < |Live(s, outdated)|
    ensures m < |s| && Live(s, outdated)[t] == s[m]
    decreases |s|
  {
    var rest := Live(s[1..], outdated);
    if outdated(s[0].key.value) {
      var m1 := LiveFrom(s[1..], outdated, t);
      m := m1 + 1;
    } else if t == 0 {
      m := 0;
    } else {
      var m1 := LiveFrom(s[1..], outdated, t - 1);
      m := m1 + 1;
    }
  }

  lemma {:induction false} LiveAppend<K, V>(s: ArrayMap<K, V>, t: ArrayMap<K, V>, outdated: K -> bool)
    ensures Live(s + t, outdated) == Live(s, outdated) + Live(t, outdated)
    decreases |s|
  {
    if |s| > 0 {
      assert (s + t)[0] == s[0];
      assert (s + t)[1..] == s[1..] + t;
      LiveAppend(s[1..], t, outdated);
    } else {
      assert s + t == t;
    }
  }

  /** Dropping outdated keys changes no lookup of a key that is still valid. */
  lemma {:induction false} LiveLookup<K, V>(s: ArrayMap<K, V>, outdated: K -> bool, k: K)
    requires forall i | 0 <= i < |s| :: s[i].key.Some?
    requires !outdated(k)
    ensures Lookup(Live(s, outdated), k) == Lookup(s, k)
    ensures Contains(Live(s, outdated), k) == Contains(s, k)
    decreases |s|
  {
    if |s| > 0 {
      LiveLookup(s[1..], outdated, k);
      var rest := Live(s[1..], outdated);
      if !outdated(s[0].key.value) {
        assert ([s[0]] + rest)[1..] == rest;
      }
    }
  }

  // ---------------------------------------------------------------------------------------------
  // Removal: `removeDynamicPropertyAtPruningSubsequent`

  /** The loop of `removeDynamicPropertyAtPruningSubsequent`: slot `i` (null past the end) is
      copied to slot `j`; `j` moves on unless the copied key is outdated; the loop stops after
      copying a null key. Gives the array and the final `j` and `i`. */
  function Shift<K, V>(a: ArrayMap<K, V>, i: nat, j: nat, outdated: K -> bool): (r: (ArrayMap<K, V>, nat, nat))
    requires j < i <= |a|
    ensures |r.0| == |a|
    ensures j <= r.1 < r.2 <= |a|
    decreases |a| - i
  {
    var s := if i < |a| then a[i] else Slot(None, None);
    var a1 := a[j := s];
    if s.key.None? then (a1, j, i)
    else Shift(a1, i + 1, if outdated(s.key.value) then j else j + 1, outdated)
  }

  /** `removeDynamicPropertyAtPruningSubsequent` as written: it compacts the entries after slot
      `k` over it, dropping outdated keys, and ends the map with a null key, but the slots between
      that null key and the old end keep whatever they held. */
  function RemoveAtAsWritten<K, V>(a: ArrayMap<K, V>, k: nat, outdated: K -> bool): (b: ArrayMap<K, V>)
    requires k < |a|
    ensures |b| == |a|
  {
    Shift(a, k + 1, k, outdated).0
  }

  /** The corrected removal: the same loop, then the slots it vacated are cleared. */
  function RemoveAt<K, V>(a: ArrayMap<K, V>, k: nat, outdated: K -> bool): (b: ArrayMap<K, V>)
    requires k < |a|
    ensures |b| == |a|
  {
    var r := Shift(a, k + 1, k, outdated);
    r.0[..r.1 + 1] + Frees(r.2 - r.1 - 1) + r.0[r.2..]
  }

  /** What removing slot `k` should leave: the slots before it, the live slots after it, then free slots. */
  function Compact<K, V>(a: ArrayMap<K, V>, k: nat, outdated: K -> bool): (b: ArrayMap<K, V>)
    requires k < Used(a)
  {
    var kept := a[..k] + Live(a[k + 1..Used(a)], outdated);
    kept + Frees(|a| - |kept|)
  }

  /** Appending one occupied slot to `Live`'s input appends it to the output unless outdated. */
  lemma LiveSnoc<K, V>(s: ArrayMap<K, V>, x: Slot<K, V>, outdated: K -> bool)
    requires x.key.Some?
    ensures Live(s + [x], outdated) == Live(s, outdated) + (if outdated(x.key.value) then [] else [x])
  {
    LiveAppend(s, [x], outdated);
    LiveOne(x, outdated);
  }

  lemma LiveOne<K, V>(x: Slot<K, V>, outdated: K -> bool)
    requires x.key.Some?
    ensures Live([x], outdated) == if outdated(x.key.value) then [] else [x]
  {
    assert [x][1..] == [];
  }

  /** One turn of the loop keeps its invariant: the slots before `j` are the kept prefix plus the
      live slots met so far, and the slots from `i` on are untouched. */
  lemma ShiftStep<K, V>(orig: ArrayMap<K, V>, k: nat, a: ArrayMap<K, V>, i: nat, j: nat, outdated: K -> bool)
    requires k <= j < i < Used(orig) && |a| == |orig|
    requires a[..j] == orig[..k] + Live(orig[k + 1..i], outdated)
    requires a[i..] == orig[i..]
    ensures a[i] == orig[i]
    ensures var a1 := a[j := a[i]];
            var j1 := if outdated(a[i].key.value) then j else j + 1;
            && a1[..j1] == orig[..k] + Live(orig[k + 1..i + 1], outdated)
            && a1[i + 1..] == orig[i + 1..]
  {
    assert a[i] == orig[i] by {
      assert a[i..][0] == orig[i..][0];
    }
    var x := a[i];
    assert x.key.Some?;
    var seen := orig[k + 1..i];
    SliceSnoc(orig, k + 1, i);
    LiveSnoc(seen, x, outdated);
    StepPrefix(a, j, x, orig[..k], Live(seen, outdated), outdated(x.key.value));
    StepSuffix(a, orig, i, j, x);
  }

  lemma SliceSnoc<T>(s: seq<T>, lo: nat, hi: nat)
    requires lo <= hi < |s|
    ensures s[lo..hi + 1] == s[lo..hi] + [s[hi]]
  {
  }

  /** Writing `x` at the loop's write position extends the kept prefix unless `x` is skipped. */
  lemma StepPrefix<T>(a: seq<T>, j: nat, x: T, pre: seq<T>, live: seq<T>, skip: bool)
    requires j < |a| && a[..j] == pre + live
    ensures a[j := x][..if skip then j else j + 1] == pre + (live + if skip then [] else [x])
  {
    ShiftPrefix(a, j, x, skip);
    if skip {
      assert live + [] == live;
    } else {
      assert pre + (live + [x]) == (pre + live) + [x];
    }
  }

  /** Writing below `i` leaves the slots after `i` alone. */
  lemma StepSuffix<T>(a: seq<T>, orig: seq<T>, i: nat, j: nat, x: T)
    requires j < i < |a| && |a| == |orig| && a[i..] == orig[i..]
    ensures a[j := x][i + 1..] == orig[i + 1..]
  {
    assert a[j := x][i + 1..] == a[i + 1..] == a[i..][1..];
  }

  lemma ShiftPrefix<T>(a: seq<T>, j: nat, x: T, skip: bool)
    requires j < |a|
    ensures skip ==> a[j := x][..j] == a[..j]
    ensures !skip ==> a[j := x][..j + 1] == a[..j] + [x]
  {
  }

  lemma {:induction false} ShiftSpec<K, V>(orig: ArrayMap<K, V>, k: nat, a: ArrayMap<K, V>, i: nat, j: nat, outdated: K -> bool)
    requires Layout(orig) && k < Used(orig)
    requires k <= j < i <= Used(orig) && |a| == |orig|
    requires a[..j] == orig[..k] + Live(orig[k + 1..i], outdated)
    requires a[i..] == orig[i..]
    ensures var r := Shift(a, i, j, outdated);
            && r.2 == Used(orig)
            && r.0[..r.1] == orig[..k] + Live(orig[k + 1..Used(orig)], outdated)
            && r.0[r.1] == Slot(None, None)
            && r.0[r.2..] == orig[r.2..]
    decreases |a| - i
  {
    if i == Used(orig) {
      var s := if i < |a| then a[i] else Slot(None, None);
      assert s == Slot(None, None) by {
        if i < |a| {
          assert a[i..][0] == orig[i..][0];
        }
      }
      var a1 := a[j := s];
      assert a1[..j] == a[..j];
      assert a1[i..] == a[i..];
    } else {
      ShiftStep(orig, k, a, i, j, outdated);
      ShiftSpec(orig, k, a[j := a[i]], i + 1, if outdated(a[i].key.value) then j else j + 1, outdated);
    }
  }

  /** The corrected removal is the compaction: the live entries after `k` close up over it and
      everything after them is free. */
  lemma RemoveAtIsCompact<K, V>(a: ArrayMap<K, V>, k: nat, outdated: K -> bool)
    requires Layout(a) && k < Used(a)
    ensures RemoveAt(a, k, outdated) == Compact(a, k, outdated)
  {
    var r := Shift(a, k + 1, k, outdated);
    ShiftFromRemoved(a, k, outdated);
    FreeTail(r.0, r.1, r.2, a[..k] + Live(a[k + 1..Used(a)], outdated));
  }

  /** The loop started at the removed slot `k` ends at the first free slot, having put the
      compacted entries before a null key and left the free slots after it alone. */
  lemma ShiftFromRemoved<K, V>(a: ArrayMap<K, V>, k: nat, outdated: K -> bool)
    requires Layout(a) && k < Used(a)
    ensures var r := Shift(a, k + 1, k, outdated);
            && r.1 < r.2 == Used(a)
            && r.0[..r.1] == a[..k] + Live(a[k + 1..Used(a)], outdated)
            && r.0[r.1] == Slot(None, None)
            && r.0[r.2..] == Frees(|a| - r.2)
  {
    assert a[..k] == a[..k] + Live(a[k + 1..k + 1], outdated);
    ShiftSpec(a, k, a, k + 1, k, outdated);
    LayoutTail(a);
  }

  /** The slots of a laid-out array from its first free slot on are all free. */
  lemma LayoutTail<K, V>(a: ArrayMap<K, V>)
    requires Layout(a)
    ensures a[Used(a)..] == Frees(|a| - Used(a))
  {
  }

  /** Clearing the slots between a null key at `n1` and the free slots from `n2` on leaves
      the prefix before `n1` followed by free slots only. */
  lemma FreeTail<K, V>(x: ArrayMap<K, V>, n1: nat, n2: nat, kept: ArrayMap<K, V>)
    requires n1 < n2 <= |x|
    requires x[..n1] == kept && x[n1] == Slot(None, None)
    requires x[n2..] == Frees(|x| - n2)
    ensures x[..n1 + 1] + Frees(n2 - n1 - 1) + x[n2..] == kept + Frees(|x| - |kept|)
  {
    assert x[..n1 + 1] == kept + [Slot(None, None)];
    var tail := [Slot(None, None)] + Frees<K, V>(n2 - n1 - 1) + x[n2..];
    assert tail == Frees(|x| - |kept|);
    assert x[..n1 + 1] + Frees(n2 - n1 - 1) + x[n2..] == kept + tail;
  }

  /** The removal as written agrees with the compaction up to and including the new null key;
      only the slots past it may differ. */
  lemma RemoveAtAsWrittenPrefix<K, V>(a: ArrayMap<K, V>, k: nat, outdated: K -> bool)
    requires Layout(a) && k < Used(a)
    ensures var n := k + |Live(a[k + 1..Used(a)], outdated)|;
            RemoveAtAsWritten(a, k, outdated)[..n + 1] == Compact(a, k, outdated)[..n + 1]
  {
    ShiftFromRemoved(a, k, outdated);
  }

  lemma {:induction false} UsedOfOccupied<K, V>(s: ArrayMap<K, V>, t: ArrayMap<K, V>)
    requires forall i | 0 <= i < |s| :: s[i].key.Some?
    requires |t| > 0 && t[0].key.None?
    ensures Used(s + t) == |s|
    decreases |s|
  {
    if |s| > 0 {
      assert (s + t)[1..] == s[1..] + t;
      UsedOfOccupied(s[1..], t);
    } else {
      assert s + t == t;
    }
  }

  /** The layout of a non-empty array made of occupied slots followed by free ones. */
  lemma OccupiedThenFree<K, V>(s: ArrayMap<K, V>, n: nat)
    requires forall i | 0 <= i < |s| :: s[i].key.Some?
    requires |s| + n > 0
    ensures Used(s + Frees(n)) == |s|
    ensures Layout(s + Frees(n))
  {
    if n > 0 {
      UsedOfOccupied(s, Frees(n));
    } else {
      assert s + Frees(n) == s;
      UsedAll(s);
    }
  }

  /** Only which slots are occupied decides `Used`. */
  lemma {:induction false} UsedSame<K, V>(a: ArrayMap<K, V>, b: ArrayMap<K, V>)
    requires |a| == |b|
    requires forall i | 0 <= i < |a| :: a[i].key.Some? == b[i].key.Some?
    ensures Used(a) == Used(b)
    decreases |a|
  {
    if |a| > 0 {
      UsedSame(a[1..], b[1..]);
    }
  }

  /** Removing slot `k` of a valid map keeps it valid, forgets the key of slot `k`, and changes
      no lookup of any other key that is still valid. */
  lemma CompactSound<K, V>(a: ArrayMap<K, V>, k: nat, outdated: K -> bool)
    requires Valid(a) && k < Used(a)
    ensures var c := Compact(a, k, outdated);
            && Valid(c) && |c| == |a|
            && !Contains(c, a[k].key.value)
            && (forall x | !outdated(x) && x != a[k].key.value :: Lookup(c, x) == Lookup(a, x) && Contains(c, x) == Contains(a, x))
  {
    var u := Used(a);
    var live := Live(a[k + 1..u], outdated);
    var kept := a[..k] + live;
    var c := Compact(a, k, outdated);
    OccupiedThenFree(kept, |a| - |kept|);
    CompactDistinct(a, k, outdated);
    CompactForgets(a, k, outdated);
    forall x | !outdated(x) && x != a[k].key.value
      ensures Lookup(c, x) == Lookup(a, x) && Contains(c, x) == Contains(a, x)
    {
      CompactKeeps(a, k, outdated, x);
    }
  }

  lemma CompactDistinct<K, V>(a: ArrayMap<K, V>, k: nat, outdated: K -> bool)
    requires Valid(a) && k < Used(a)
    ensures Distinct(Compact(a, k, outdated))
  {
    var c := Compact(a, k, outdated);
    CompactUsed(a, k, outdated);
    forall i, j | 0 <= i < j < Used(c)
      ensures c[i].key != c[j].key
    {
      CompactDistinctAt(a, k, outdated, i, j);
    }
  }

  /** The compaction's entries are the slots before `k` and the live slots after it. */
  lemma CompactUsed<K, V>(a: ArrayMap<K, V>, k: nat, outdated: K -> bool)
    requires k < Used(a)
    ensures Used(Compact(a, k, outdated)) == k + |Live(a[k + 1..Used(a)], outdated)|
    ensures Layout(Compact(a, k, outdated))
  {
    var kept := a[..k] + Live(a[k + 1..Used(a)], outdated);
    OccupiedThenFree(kept, |a| - |kept|);
  }

  lemma CompactDistinctAt<K, V>(a: ArrayMap<K, V>, k: nat, outdated: K -> bool, i: nat, j: nat)
    requires Valid(a) && k < Used(a)
    requires i < j < k + |Live(a[k + 1..Used(a)], outdated)|
    ensures Compact(a, k, outdated)[i].key != Compact(a, k, outdated)[j].key
  {
    var u := Used(a);
    var live := Live(a[k + 1..u], outdated);
    CompactAt(a, k, outdated, i);
    CompactAt(a, k, outdated, j);
    if k <= i {
      SliceDistinct(a, k + 1, u);
      LiveOrdered(a[k + 1..u], outdated, i - k, j - k);
    } else {
      var q := SourceIndex(a, k, outdated, j);
      DistinctPair(a, i, q);
    }
  }

  /** The slots of the compaction: the prefix before `k`, then the live slots after it. */
  lemma CompactAt<K, V>(a: ArrayMap<K, V>, k: nat, outdated: K -> bool, t: nat)
    requires k < Used(a)
    requires t < k + |Live(a[k + 1..Used(a)], outdated)|
    ensures t < k ==> Compact(a, k, outdated)[t] == a[t]
    ensures k <= t ==> Compact(a, k, outdated)[t] == Live(a[k + 1..Used(a)], outdated)[t - k]
  {
  }

  lemma DistinctPair<K, V>(a: ArrayMap<K, V>, p: nat, q: nat)
    requires Distinct(a) && p < Used(a) && q < Used(a) && p != q
    ensures a[p].key != a[q].key
  {
    if q < p {
      assert a[q].key != a[p].key;
    }
  }

  lemma SliceDistinct<K, V>(a: ArrayMap<K, V>, lo: nat, hi: nat)
    requires Distinct(a) && lo <= hi <= Used(a)
    ensures forall t | 0 <= t < hi - lo :: a[lo..hi][t].key.Some?
    ensures forall x, y | 0 <= x < y < hi - lo :: a[lo..hi][x].key != a[lo..hi][y].key
  {
    forall x, y | 0 <= x < y < hi - lo
      ensures a[lo..hi][x].key != a[lo..hi][y].key
    {
      assert a[lo..hi][x] == a[lo + x] && a[lo..hi][y] == a[lo + y];
    }
  }

  /** Where slot `t` of the compaction came from in the original array. */
  lemma SourceIndex<K, V>(a: ArrayMap<K, V>, k: nat, outdated: K -> bool, t: nat) returns (p: nat)
    requires Layout(a) && k < Used(a)
    requires t < k + |Live(a[k + 1..Used(a)], outdated)|
    ensures p < Used(a) && Compact(a, k, outdated)[t] == a[p]
    ensures t < k ==> p == t
    ensures t >= k ==> k < p
  {
    var u := Used(a);
    var live := Live(a[k + 1..u], outdated);
    var c := Compact(a, k, outdated);
    if t < k {
      p := t;
    } else {
      assert c[t] == live[t - k];
      var m := LiveFrom(a[k + 1..u], outdated, t - k);
      p := k + 1 + m;
    }
  }

  /** Distinct positions of `Live(s)` come from distinct positions of `s`, so equal slots there
      mean equal slots in `s`: impossible when `s` has distinct keys. */
  lemma {:induction false} LiveOrdered<K, V>(s: ArrayMap<K, V>, outdated: K -> bool, i: nat, j: nat)
    requires forall t | 0 <= t < |s| :: s[t].key.Some?
    requires forall x, y | 0 <= x < y < |s| :: s[x].key != s[y].key
    requires i < j < |Live(s, outdated)|
    ensures Live(s, outdated)[i].key != Live(s, outdated)[j].key
    decreases |s|
  {
    var rest := Live(s[1..], outdated);
    if outdated(s[0].key.value) {
      LiveOrdered(s[1..], outdated, i, j);
    } else if i == 0 {
      var m := LiveFrom(s[1..], outdated, j - 1);
      assert Live(s, outdated)[j] == s[m + 1];
    } else {
      LiveOrdered(s[1..], outdated, i - 1, j - 1);
    }
  }

  lemma CompactForgets<K, V>(a: ArrayMap<K, V>, k: nat, outdated: K -> bool)
    requires Valid(a) && k < Used(a)
    ensures !Contains(Compact(a, k, outdated), a[k].key.value)
  {
    var u := Used(a);
    var key := a[k].key.value;
    var live := Live(a[k + 1..u], outdated);
    var kept := a[..k] + live;
    var c := Compact(a, k, outdated);
    OccupiedThenFree(kept, |a| - |kept|);
    ContainsAt(c, key);
    if exists i | 0 <= i < Used(c) :: c[i].key == Some(key) {
      var i :| 0 <= i < Used(c) && c[i].key == Some(key);
      var p := SourceIndex(a, k, outdated, i);
    }
  }

  lemma CompactKeeps<K, V>(a: ArrayMap<K, V>, k: nat, outdated: K -> bool, x: K)
    requires Layout(a) && k < Used(a)
    requires !outdated(x) && x != a[k].key.value
    ensures Lookup(Compact(a, k, outdated), x) == Lookup(a, x)
    ensures Contains(Compact(a, k, outdated), x) == Contains(a, x)
  {
    CompactLookup(a, k, outdated, x);
    SlotLookup(a, k, x);
    LiveLookup(a[k + 1..Used(a)], outdated, x);
  }

  /** A lookup in the compacted map: the slots before `k`, then the live slots after it. */
  lemma CompactLookup<K, V>(a: ArrayMap<K, V>, k: nat, outdated: K -> bool, x: K)
    requires k < Used(a)
    ensures var before, live := a[..k], Live(a[k + 1..Used(a)], outdated);
            && Lookup(Compact(a, k, outdated), x) == (if Contains(before, x) then Lookup(before, x) else Lookup(live, x))
            && Contains(Compact(a, k, outdated), x) == (Contains(before, x) || Contains(live, x))
  {
    var before, live := a[..k], Live(a[k + 1..Used(a)], outdated);
    var rest := Frees<K, V>(|a| - k - |live|);
    assert Compact(a, k, outdated) == before + (live + rest);
    assert forall i | 0 <= i < |before| :: before[i].key.Some?;
    LookupAppend(before, live + rest, x);
    LookupAppend(live, rest, x);
    FreesHoldNothing<K, V>(|a| - k - |live|, x);
    if !Contains(live, x) {
      NotContainedLookup(live, x);
    }
  }

  /** A lookup in a laid-out map, split at occupied slot `k`. */
  lemma SlotLookup<K, V>(a: ArrayMap<K, V>, k: nat, x: K)
    requires Layout(a) && k < Used(a)
    ensures var before, after := a[..k], a[k + 1..Used(a)];
            && Lookup(a, x) == (if Contains(before, x) then Lookup(before, x)
                                else if a[k].key.value == x then a[k].value else Lookup(after, x))
            && Contains(a, x) == (Contains(before, x) || a[k].key.value == x || Contains(after, x))
  {
    var u := Used(a);
    var before, after := a[..k], a[k + 1..u];
    assert a == before + [a[k]] + (after + a[u..]);
    assert forall i | 0 <= i < |before| :: before[i].key.Some?;
    assert forall i | 0 <= i < |after| :: after[i] == a[k + 1 + i];
    assert forall i | 0 <= i < |after| :: after[i].key.Some?;
    LookupMiddle(before, a[k], after + a[u..], x);
    assert a[u..] == Frees(|a| - u);
    LookupAppend(after, a[u..], x);
    FreesHoldNothing<K, V>(|a| - u, x);
    if !Contains(after, x) {
      NotContainedLookup(after, x);
    }
  }

  /** A lookup through one occupied slot between two parts. */
  lemma LookupMiddle<K, V>(pre: ArrayMap<K, V>, y: Slot<K, V>, post: ArrayMap<K, V>, x: K)
    requires forall i | 0 <= i < |pre| :: pre[i].key.Some?
    requires y.key.Some?
    ensures Lookup(pre + [y] + post, x) == (if Contains(pre, x) then Lookup(pre, x)
                                            else if y.key.value == x then y.value else Lookup(post, x))
    ensures Contains(pre + [y] + post, x) == (Contains(pre, x) || y.key.value == x || Contains(post, x))
  {
    assert pre + [y] + post == pre + ([y] + post);
    LookupAppend(pre, [y] + post, x);
    assert ([y] + post)[1..] == post;
  }

  // ---------------------------------------------------------------------------------------------
  // Lookup: `findDynamicPropertyIndex`

  /** `findDynamicPropertyIndex` from slot `i`, corrected: the first outdated key met is removed
      together with the outdated keys after it, and the slot it vacated is looked at again. */
  function FindFrom<K(==), V>(a: ArrayMap<K, V>, key: K, i: nat, pruned: bool, outdated: K -> bool): (r: (ArrayMap<K, V>, Probe))
    requires i <= |a|
    ensures |r.0| == |a|
    ensures r.1.Found? ==> r.1.slot < |a| && r.0[r.1.slot].key == Some(key)
    ensures r.1.Absent? ==> r.1.free <= |a|
    decreases |a| - i, if pruned then 0 else 1
  {
    if i == |a| || a[i].key.None? then (a, Absent(i))
    else if a[i].key.value == key then (a, Found(i))
    else if !pruned && outdated(a[i].key.value) then FindFrom(RemoveAt(a, i, outdated), key, i, true, outdated)
    else FindFrom(a, key, i + 1, pruned, outdated)
  }

  /** `findDynamicPropertyIndex` as written: after removing the outdated key at slot `i` it moves
      on to slot `i + 1`, so the entry that moved into slot `i` is never compared. */
  function FindFromAsWritten<K(==), V>(a: ArrayMap<K, V>, key: K, i: nat, pruned: bool, outdated: K -> bool): (r: (ArrayMap<K, V>, Probe))
    requires i <= |a|
    ensures |r.0| == |a|
    ensures r.1.Found? ==> r.1.slot < |a| && r.0[r.1.slot].key == Some(key)
    ensures r.1.Absent? ==> r.1.free <= |a|
    decreases |a| - i
  {
    if i == |a| || a[i].key.None? then (a, Absent(i))
    else if a[i].key.value == key then (a, Found(i))
    else if !pruned && outdated(a[i].key.value) then FindFromAsWritten(RemoveAtAsWritten(a, i, outdated), key, i + 1, true, outdated)
    else FindFromAsWritten(a, key, i + 1, pruned, outdated)
  }

  /** The corrected lookup keeps a valid map valid, changes no lookup of a valid key, and finds
      the key exactly when the map holds it; otherwise it reports the first free slot. */
  lemma {:induction false} FindFromSound<K, V>(a: ArrayMap<K, V>, key: K, i: nat, pruned: bool, outdated: K -> bool)
    requires Valid(a) && !outdated(key)
    requires i <= Used(a)
    requires forall t | 0 <= t < i :: a[t].key != Some(key)
    ensures var r := FindFrom(a, key, i, pruned, outdated);
            && Valid(r.0)
            && (forall x | !outdated(x) :: Lookup(r.0, x) == Lookup(a, x) && Contains(r.0, x) == Contains(a, x))
            && (r.1.Found? ==> r.1.slot < Used(r.0) && r.0[r.1.slot].key == Some(key))
            && (r.1.Absent? ==> r.1.free == Used(r.0) && !Contains(r.0, key))
    decreases |a| - i, if pruned then 0 else 1
  {
    if i == |a| || a[i].key.None? {
      ContainsAt(a, key);
    } else if a[i].key.value == key {
    } else if !pruned && outdated(a[i].key.value) {
      var b := RemoveAt(a, i, outdated);
      PruneStep(a, key, i, outdated);
      FindFromSound(b, key, i, true, outdated);
    } else {
      FindFromSound(a, key, i + 1, pruned, outdated);
    }
  }

  /** Pruning the outdated key at slot `i` keeps the map valid, its valid lookups, and the
      slots before `i`. */
  lemma PruneStep<K, V>(a: ArrayMap<K, V>, key: K, i: nat, outdated: K -> bool)
    requires Valid(a) && !outdated(key)
    requires i < Used(a) && outdated(a[i].key.value)
    requires forall t | 0 <= t < i :: a[t].key != Some(key)
    ensures var b := RemoveAt(a, i, outdated);
            && Valid(b) && i <= Used(b)
            && (forall t | 0 <= t < i :: b[t].key != Some(key))
            && (forall x | !outdated(x) :: Lookup(b, x) == Lookup(a, x) && Contains(b, x) == Contains(a, x))
  {
    var b := RemoveAt(a, i, outdated);
    RemoveAtIsCompact(a, i, outdated);
    CompactSound(a, i, outdated);
    CompactUsed(a, i, outdated);
    forall t | 0 <= t < i
      ensures b[t].key != Some(key)
    {
      CompactAt(a, i, outdated, t);
    }
  }

  /** The corrected lookup as a loop over the slots. */
  method FindLoop<K(==), V>(a: ArrayMap<K, V>, key: K, outdated: K -> bool) returns (b: ArrayMap<K, V>, probe: Probe)
    ensures (b, probe) == FindFrom(a, key, 0, false, outdated)
  {
    b := a;
    var i := 0;
    var pruned := false;
    while i < |b| && b[i].key.Some? && b[i].key.value != key
      invariant i <= |b| == |a|
      invariant FindFrom(b, key, i, pruned, outdated) == FindFrom(a, key, 0, false, outdated)
      decreases |b| - i, if pruned then 0 else 1
    {
      if !pruned && outdated(b[i].key.value) {
        pruned := true;
        b := RemoveAt(b, i, outdated);
      } else {
        i := i + 1;
      }
    }
    probe := if i == |b| || b[i].key.None? then Absent(i) else Found(i);
  }

  // ---------------------------------------------------------------------------------------------
  // The element's operations. `props` is the element's `dynamicProperties`: no array, or one.

  /** The value `get` should return: none without an array, else the reference lookup. */
  function LookupProps<K(==), V>(props: Option<ArrayMap<K, V>>, k: K): Option<V> {
    match props
    case None => None
    case Some(a) => Lookup(a, k)
  }

  function ContainsProps<K(==), V>(props: Option<ArrayMap<K, V>>, k: K): bool {
    props.Some? && Contains(props.value, k)
  }

  ghost predicate ValidProps<K, V>(props: Option<ArrayMap<K, V>>) {
    props.None? || Valid(props.value)
  }

  const INVALID_TOKEN := "The property token can only be used within the phase"

  /** `initializeDynamicProperties`: an array of four cells, the pair in the first two. */
  function Initial<K, V>(key: K, value: Option<V>): (a: ArrayMap<K, V>)
    ensures |a| == 2 && Valid(a) && Used(a) == 1
  {
    var a := [Slot(Some(key), value), Slot(None, None)];
    assert Used(a[1..]) == 0;
    a
  }

  /** `addDynamicProperty`: a null value is not stored; otherwise the pair goes into slot
      `index`, after doubling the array when it is full. */
  function Add<K, V>(a: ArrayMap<K, V>, index: nat, key: K, value: Option<V>): (b: ArrayMap<K, V>)
    requires 0 < |a| && index <= |a|
    ensures value.None? ==> b == a
    ensures value.Some? ==> |b| == (if index < |a| then |a| else 2 * |a|)
  {
    if value.None? then a
    else
      var grown := if |a| <= index then a + Frees(|a|) else a;
      grown[index := Slot(Some(key), value)]
  }

  /** Storing a new key in the first free slot of a valid map that lacks it. */
  lemma AddSound<K, V>(a: ArrayMap<K, V>, key: K, value: V)
    requires Valid(a) && !Contains(a, key)
    ensures var b := Add(a, Used(a), key, Some(value));
            && Valid(b) && Lookup(b, key) == Some(value) && Contains(b, key)
            && (forall x | x != key :: Lookup(b, x) == Lookup(a, x) && Contains(b, x) == Contains(a, x))
  {
    var u := Used(a);
    var b := Add(a, u, key, Some(value));
    var occupied := a[..u] + [Slot(Some(key), Some(value))];
    assert b == occupied + Frees(|b| - u - 1);
    OccupiedThenFree(occupied, |b| - u - 1);
    forall x
      ensures Lookup(b, x) == (if x == key then Some(value) else Lookup(a, x))
      ensures Contains(b, x) == (x == key || Contains(a, x))
    {
      AddAt(a, key, value, |b| - u - 1, x);
    }
    ContainsAt(a, key);
    assert Distinct(b) by {
      forall i, j | 0 <= i < j < Used(b)
        ensures b[i].key != b[j].key
      {
        assert b[i] == a[i];
        if j < u {
          assert b[j] == a[j];
        } else {
          assert a[i].key != Some(key);
        }
      }
    }
  }

  /** A lookup after writing `key` into the first free slot of a laid-out map. */
  lemma AddAt<K, V>(a: ArrayMap<K, V>, key: K, value: V, n: nat, x: K)
    requires Layout(a) && !Contains(a, key)
    ensures var b := a[..Used(a)] + [Slot(Some(key), Some(value))] + Frees(n);
            && Lookup(b, x) == (if x == key then Some(value) else Lookup(a, x))
            && Contains(b, x) == (x == key || Contains(a, x))
  {
    var u := Used(a);
    LookupMiddle(a[..u], Slot(Some(key), Some(value)), Frees(n), x);
    FreesHoldNothing<K, V>(n, x);
    assert a == a[..u] + a[u..];
    assert a[u..] == Frees(|a| - u);
    LookupAppend(a[..u], a[u..], x);
    FreesHoldNothing<K, V>(|a| - u, x);
  }

  /** Replacing the value of an occupied slot changes that key's lookup only. */
  lemma ReplaceSound<K, V>(a: ArrayMap<K, V>, s: nat, key: K, value: V)
    requires Valid(a) && s < Used(a) && a[s].key == Some(key)
    ensures var b := a[s := Slot(Some(key), Some(value))];
            && Valid(b) && Lookup(b, key) == Some(value)
            && (forall x | x != key :: Lookup(b, x) == Lookup(a, x) && Contains(b, x) == Contains(a, x))
  {
    var b := a[s := Slot(Some(key), Some(value))];
    UsedSame(a, b);
    NoEarlierCopy(a, s, key);
    forall x
      ensures Lookup(b, x) == (if x == key then Some(value) else Lookup(a, x))
      ensures Contains(b, x) == Contains(a, x)
    {
      ReplaceAt(a, s, key, value, x);
    }
    assert Distinct(b) by {
      forall i, j | 0 <= i < j < Used(b)
        ensures b[i].key != b[j].key
      {
        assert b[i].key == a[i].key && b[j].key == a[j].key;
      }
    }
  }

  lemma ReplaceAt<K, V>(a: ArrayMap<K, V>, s: nat, key: K, value: V, x: K)
    requires s < Used(a) && a[s].key == Some(key) && !Contains(a[..s], key)
    ensures var b := a[s := Slot(Some(key), Some(value))];
            && Lookup(b, x) == (if x == key then Some(value) else Lookup(a, x))
            && Contains(b, x) == Contains(a, x)
  {
    var b := a[s := Slot(Some(key), Some(value))];
    assert a == a[..s] + [a[s]] + a[s + 1..];
    assert b == a[..s] + [b[s]] + a[s + 1..];
    LookupMiddle(a[..s], a[s], a[s + 1..], x);
    LookupMiddle(a[..s], b[s], a[s + 1..], x);
  }

  lemma {:induction false} UsedAll<K, V>(a: ArrayMap<K, V>)
    requires forall i | 0 <= i < |a| :: a[i].key.Some?
    ensures Used(a) == |a|
    decreases |a|
  {
    if |a| > 0 {
      UsedAll(a[1..]);
    }
  }

  /** `getDynamicProperty`: fails for an outdated temporary token (`requireValid`); otherwise the
      value after the key, or none. The lookup may prune the array, so the new array is returned. */
  function Get<K(==), V>(props: Option<ArrayMap<K, V>>, token: K, outdated: K -> bool): (r: Result<(Option<ArrayMap<K, V>>, Option<V>)>)
    ensures r.Failure? <==> outdated(token)
    ensures r.Ok? && props.None? ==> r.value == (None, None)
  {
    if outdated(token) then Failure(INVALID_TOKEN)
    else match props
      case None => Ok((None, None))
      case Some(a) =>
        var (b, probe) := FindFrom(a, token, 0, false, outdated);
        Ok((Some(b), if probe.Found? then b[probe.slot].value else None))
  }

  /** `setDynamicProperty`: an existing key gets the new value (and the old one is returned) or,
      for a null value, is removed (and null is returned); a new key with a value is stored; a
      null value for a missing key changes nothing. */
  function Set<K(==), V>(props: Option<ArrayMap<K, V>>, token: K, value: Option<V>, outdated: K -> bool): (r: Result<(Option<ArrayMap<K, V>>, Option<V>)>)
    requires props.Some? ==> |props.value| > 0
    ensures r.Failure? <==> outdated(token)
  {
    if outdated(token) then Failure(INVALID_TOKEN)
    else match props
      case None => Ok((if value.None? then None else Some(Initial(token, value)), None))
      case Some(a) =>
        var (b, probe) := FindFrom(a, token, 0, false, outdated);
        match probe
        case Found(s) =>
          if value.None? then Ok((Some(RemoveAt(b, s, outdated)), None))
          else Ok((Some(b[s := Slot(Some(token), value)]), b[s].value))
        case Absent(s) => Ok((Some(Add(b, s, token, value)), None))
  }

  /** `getOrPutDynamicProperty`: an existing key's value is returned and `compute` is not called;
      otherwise `computed`, the value `compute` gives, is stored and returned. The flag says
      whether `compute` was called. */
  function GetOrPut<K(==), V>(props: Option<ArrayMap<K, V>>, token: K, computed: Option<V>, outdated: K -> bool): (r: Result<(Option<ArrayMap<K, V>>, Option<V>, bool)>)
    requires props.Some? ==> |props.value| > 0
    ensures r.Failure? <==> outdated(token)
  {
    if outdated(token) then Failure(INVALID_TOKEN)
    else match props
      case None => Ok((Some(Initial(token, computed)), computed, true))
      case Some(a) =>
        var (b, probe) := FindFrom(a, token, 0, false, outdated);
        match probe
        case Found(s) => Ok((Some(b), b[s].value, false))
        case Absent(s) => Ok((Some(Add(b, s, token, computed)), computed, true))
  }

  /** `get` returns the reference lookup and changes no lookup of a valid key. */
  lemma GetSound<K, V>(props: Option<ArrayMap<K, V>>, token: K, outdated: K -> bool)
    requires ValidProps(props) && !outdated(token)
    ensures var r := Get(props, token, outdated);
            && r.Ok? && r.value.1 == LookupProps(props, token)
            && ValidProps(r.value.0)
            && (forall x | !outdated(x) :: LookupProps(r.value.0, x) == LookupProps(props, x))
  {
    if props.Some? {
      var a := props.value;
      FindFromSound(a, token, 0, false, outdated);
      var (b, probe) := FindFrom(a, token, 0, false, outdated);
      if probe.Found? {
        LookupAt(b, token, probe.slot);
      } else {
        NotContainedLookup(b, token);
      }
    }
  }

  /** In a map without duplicates the lookup of the key at slot `s` is the value at slot `s`. */
  lemma LookupAt<K, V>(a: ArrayMap<K, V>, k: K, s: nat)
    requires Distinct(a) && s < Used(a) && a[s].key == Some(k)
    ensures Lookup(a, k) == a[s].value
  {
    assert a == a[..s] + ([a[s]] + a[s + 1..]);
    LookupAppend(a[..s], [a[s]] + a[s + 1..], k);
    NoEarlierCopy(a, s, k);
  }

  /** Without duplicates, the slots before the one holding `k` do not hold it. */
  lemma NoEarlierCopy<K, V>(a: ArrayMap<K, V>, s: nat, k: K)
    requires Distinct(a) && s < Used(a) && a[s].key == Some(k)
    ensures !Contains(a[..s], k)
  {
    ContainsAt(a[..s], k);
    forall i | 0 <= i < Used(a[..s])
      ensures a[..s][i].key != Some(k)
    {
      assert a[..s][i] == a[i];
    }
  }

  lemma InitialLookup<K, V>(key: K, value: Option<V>, x: K)
    ensures Lookup(Initial(key, value), x) == (if x == key then value else None)
    ensures Contains(Initial(key, value), x) == (x == key)
  {
    var a := Initial(key, value);
    assert a[1..][0].key.None?;
  }

  lemma {:induction false} NotContainedLookup<K, V>(a: ArrayMap<K, V>, k: K)
    requires !Contains(a, k)
    ensures Lookup(a, k) == None
    decreases |a|
  {
    if |a| > 0 && a[0].key.Some? {
      NotContainedLookup(a[1..], k);
    }
  }

  /** `set` then `get` of the same key gives the value set (none after setting null), every
      other valid key reads as before, and the map stays valid. */
  lemma SetSound<K, V>(props: Option<ArrayMap<K, V>>, token: K, value: Option<V>, outdated: K -> bool)
    requires ValidProps(props) && !outdated(token)
    ensures var r := Set(props, token, value, outdated);
            && r.Ok? && ValidProps(r.value.0)
            && LookupProps(r.value.0, token) == value
            && (forall x | !outdated(x) && x != token :: LookupProps(r.value.0, x) == LookupProps(props, x))
            && r.value.1 == (if value.None? then None else LookupProps(props, token))
  {
    var r := Set(props, token, value, outdated);
    if props.None? {
      if value.Some? {
        forall x {
          InitialLookup(token, value, x);
        }
      }
    } else {
      var a := props.value;
      FindFromSound(a, token, 0, false, outdated);
      var (b, probe) := FindFrom(a, token, 0, false, outdated);
      match probe
      case Found(s) =>
        LookupAt(b, token, s);
        if value.None? {
          RemoveAtIsCompact(b, s, outdated);
          CompactSound(b, s, outdated);
          NotContainedLookup(Compact(b, s, outdated), token);
        } else {
          ReplaceSound(b, s, token, value.value);
        }
      case Absent(s) =>
        NotContainedLookup(b, token);
        NotContainedLookup(a, token);
        if value.Some? {
          AddSound(b, token, value.value);
        }
    }
  }

  /** `getOrPut` returns the stored value without computing when the key is there, and otherwise
      stores and returns the computed value; afterwards `get` gives what it returned. */
  lemma GetOrPutSound<K, V>(props: Option<ArrayMap<K, V>>, token: K, computed: Option<V>, outdated: K -> bool)
    requires ValidProps(props) && !outdated(token)
    ensures var r := GetOrPut(props, token, computed, outdated);
            && r.Ok? && ValidProps(r.value.0)
            && (r.value.2 <==> !ContainsProps(props, token))
            && r.value.1 == (if ContainsProps(props, token) then LookupProps(props, token) else computed)
            && LookupProps(r.value.0, token) == r.value.1
            && (forall x | !outdated(x) && x != token :: LookupProps(r.value.0, x) == LookupProps(props, x))
  {
    if props.None? {
      forall x {
        InitialLookup(token, computed, x);
      }
    } else {
      var a := props.value;
      FindFromSound(a, token, 0, false, outdated);
      var (b, probe) := FindFrom(a, token, 0, false, outdated);
      match probe
      case Found(s) =>
        LookupAt(b, token, s);
        ContainsAt(b, token);
      case Absent(s) =>
        if computed.Some? {
          AddSound(b, token, computed.value);
        } else {
          NotContainedLookup(b, token);
        }
    }
  }

  // ---------------------------------------------------------------------------------------------
  // The element's operations as written, and what goes wrong with them

  function GetAsWritten<K(==), V>(props: Option<ArrayMap<K, V>>, token: K, outdated: K -> bool): (r: Result<(Option<ArrayMap<K, V>>, Option<V>)>)
    ensures r.Failure? <==> outdated(token)
  {
    if outdated(token) then Failure(INVALID_TOKEN)
    else match props
      case None => Ok((None, None))
      case Some(a) =>
        var (b, probe) := FindFromAsWritten(a, token, 0, false, outdated);
        Ok((Some(b), if probe.Found? then b[probe.slot].value else None))
  }

  function SetAsWritten<K(==), V>(props: Option<ArrayMap<K, V>>, token: K, value: Option<V>, outdated: K -> bool): (r: Result<(Option<ArrayMap<K, V>>, Option<V>)>)
    requires props.Some? ==> |props.value| > 0
    ensures r.Failure? <==> outdated(token)
    ensures r.Ok? ==> r.value.0.Some? ==> |r.value.0.value| > 0
  {
    if outdated(token) then Failure(INVALID_TOKEN)
    else match props
      case None => Ok((if value.None? then None else Some(Initial(token, value)), None))
      case Some(a) =>
        var (b, probe) := FindFromAsWritten(a, token, 0, false, outdated);
        match probe
        case Found(s) =>
          if value.None? then Ok((Some(RemoveAtAsWritten(b, s, outdated)), None))
          else Ok((Some(b[s := Slot(Some(token), value)]), b[s].value))
        case Absent(s) =>
          Ok((Some(Add(b, s, token, value)), None))
  }

  /** Keys 1, 2, 3 and 4 stand for properties A, B, C and D; B is temporary and its phase is over. */
  function BOutdated(k: nat): bool {
    k == 2
  }

  function NoneOutdated(k: nat): bool {
    false
  }

  function Pair(k: nat, v: nat): Slot<nat, nat> {
    Slot(Some(k), Some(v))
  }

  const FREE: Slot<nat, nat> := Slot(None, None)

  function Step(r: Result<(Option<ArrayMap<nat, nat>>, Option<nat>)>): Option<ArrayMap<nat, nat>> {
    if r.Ok? then r.value.0 else None
  }

  /** One turn of the removal loop on an occupied slot. */
  lemma ShiftOnce(a: ArrayMap<nat, nat>, i: nat, j: nat, outdated: nat -> bool, a1: ArrayMap<nat, nat>, j1: nat)
    requires j < i < |a| && a[i].key.Some?
    requires a1 == a[j := a[i]]
    requires j1 == if outdated(a[i].key.value) then j else j + 1
    ensures Shift(a, i, j, outdated) == Shift(a1, i + 1, j1, outdated)
  {
  }

  /** The last turn of the removal loop, on a free slot or past the end. */
  lemma ShiftLast(a: ArrayMap<nat, nat>, i: nat, j: nat, outdated: nat -> bool, a1: ArrayMap<nat, nat>)
    requires j < i <= |a| && (i < |a| ==> a[i] == FREE)
    requires a1 == a[j := FREE]
    ensures Shift(a, i, j, outdated) == (a1, j, i)
  {
  }

  /** The removal as written leaves stale slots behind its null key, and a later insertion brings
      them back: with A, B, C stored and B outdated, removing A leaves a stale copy of C past the
      null key; storing D fills the null key and exposes it, so C is stored twice; removing C then
      removes the first copy only, and C reads back with its old value. */
  lemma RemovedKeyComesBack()
    ensures var start: Option<ArrayMap<nat, nat>> := Some([Pair(1, 10), Pair(2, 20), Pair(3, 30), FREE]);
            var afterA := Step(SetAsWritten(start, 1, None, BOutdated));
            var afterD := Step(SetAsWritten(afterA, 4, Some(40), BOutdated));
            var afterC := Step(SetAsWritten(afterD, 3, None, BOutdated));
            && afterA == Some([Pair(3, 30), FREE, Pair(3, 30), FREE])
            && GetAsWritten(afterC, 3, BOutdated) == Ok((afterC, Some(30)))
  {
    var start: ArrayMap<nat, nat> := [Pair(1, 10), Pair(2, 20), Pair(3, 30), FREE];
    assert FindFromAsWritten(start, 1, 0, false, BOutdated) == (start, Found(0));
    var s1: ArrayMap<nat, nat> := [Pair(2, 20), Pair(2, 20), Pair(3, 30), FREE];
    var s2: ArrayMap<nat, nat> := [Pair(3, 30), Pair(2, 20), Pair(3, 30), FREE];
    var a1: ArrayMap<nat, nat> := [Pair(3, 30), FREE, Pair(3, 30), FREE];
    ShiftOnce(start, 1, 0, BOutdated, s1, 0);
    ShiftOnce(s1, 2, 0, BOutdated, s2, 1);
    ShiftLast(s2, 3, 1, BOutdated, a1);
    assert Step(SetAsWritten(Some(start), 1, None, BOutdated)) == Some(a1);

    assert FindFromAsWritten(a1, 4, 1, false, BOutdated) == (a1, Absent(1));
    assert FindFromAsWritten(a1, 4, 0, false, BOutdated) == (a1, Absent(1));
    var a2: ArrayMap<nat, nat> := [Pair(3, 30), Pair(4, 40), Pair(3, 30), FREE];
    assert Add(a1, 1, 4, Some(40)) == a2;
    assert Step(SetAsWritten(Some(a1), 4, Some(40), BOutdated)) == Some(a2);

    assert FindFromAsWritten(a2, 3, 0, false, BOutdated) == (a2, Found(0));
    var t1: ArrayMap<nat, nat> := [Pair(4, 40), Pair(4, 40), Pair(3, 30), FREE];
    var t2: ArrayMap<nat, nat> := [Pair(4, 40), Pair(3, 30), Pair(3, 30), FREE];
    var a3: ArrayMap<nat, nat> := [Pair(4, 40), Pair(3, 30), FREE, FREE];
    ShiftOnce(a2, 1, 0, BOutdated, t1, 1);
    ShiftOnce(t1, 2, 1, BOutdated, t2, 2);
    ShiftLast(t2, 3, 2, BOutdated, a3);
    assert Step(SetAsWritten(Some(a2), 3, None, BOutdated)) == Some(a3);

    assert FindFromAsWritten(a3, 3, 1, false, BOutdated) == (a3, Found(1));
    assert FindFromAsWritten(a3, 3, 0, false, BOutdated) == (a3, Found(1));
  }

  /** The lookup as written skips the slot it just compacted into: with B (outdated) before A, a
      lookup of A removes B, moves A into slot 0, goes on at slot 1 and reports A absent. Setting
      A then stores a second copy, and getting A returns the old value. */
  lemma SetIsNotSeen()
    ensures var start: Option<ArrayMap<nat, nat>> := Some([Pair(2, 20), Pair(1, 10)]);
            var afterSet := Step(SetAsWritten(start, 1, Some(11), BOutdated));
            && afterSet == Some([Pair(1, 10), Pair(1, 11)])
            && GetAsWritten(afterSet, 1, BOutdated) == Ok((afterSet, Some(10)))
  {
    var start: ArrayMap<nat, nat> := [Pair(2, 20), Pair(1, 10)];
    var s1: ArrayMap<nat, nat> := [Pair(1, 10), Pair(1, 10)];
    var pruned: ArrayMap<nat, nat> := [Pair(1, 10), FREE];
    ShiftOnce(start, 1, 0, BOutdated, s1, 1);
    ShiftLast(s1, 2, 1, BOutdated, pruned);
    assert FindFromAsWritten(pruned, 1, 1, true, BOutdated) == (pruned, Absent(1));
    assert FindFromAsWritten(start, 1, 0, false, BOutdated) == (pruned, Absent(1));
    var both: ArrayMap<nat, nat> := [Pair(1, 10), Pair(1, 11)];
    assert Add(pruned, 1, 1, Some(11)) == both;
    assert FindFromAsWritten(both, 1, 0, false, BOutdated) == (both, Found(0));
  }

  /** Both starting arrays above are reachable: they are what storing the keys in order builds
      while B is still valid. */
  lemma StartsAreReachable()
    ensures var ab := Step(SetAsWritten(Step(SetAsWritten(None, 1, Some(10), NoneOutdated)), 2, Some(20), NoneOutdated));
            var abc := Step(SetAsWritten(ab, 3, Some(30), NoneOutdated));
            var ba := Step(SetAsWritten(Step(SetAsWritten(None, 2, Some(20), NoneOutdated)), 1, Some(10), NoneOutdated));
            && abc == Some([Pair(1, 10), Pair(2, 20), Pair(3, 30), FREE])
            && ba == Some([Pair(2, 20), Pair(1, 10)])
  {
    var a: ArrayMap<nat, nat> := [Pair(1, 10), FREE];
    assert Step(SetAsWritten(None, 1, Some(10), NoneOutdated)) == Some(a);
    assert FindFromAsWritten(a, 2, 1, false, NoneOutdated) == (a, Absent(1));
    assert FindFromAsWritten(a, 2, 0, false, NoneOutdated) == (a, Absent(1));
    var ab: ArrayMap<nat, nat> := [Pair(1, 10), Pair(2, 20)];
    assert Add(a, 1, 2, Some(20)) == ab;
    assert FindFromAsWritten(ab, 3, 2, false, NoneOutdated) == (ab, Absent(2));
    assert FindFromAsWritten(ab, 3, 1, false, NoneOutdated) == (ab, Absent(2));
    assert FindFromAsWritten(ab, 3, 0, false, NoneOutdated) == (ab, Absent(2));
    assert Add(ab, 2, 3, Some(30)) == [Pair(1, 10), Pair(2, 20), Pair(3, 30), FREE];
    var b: ArrayMap<nat, nat> := [Pair(2, 20), FREE];
    assert Step(SetAsWritten(None, 2, Some(20), NoneOutdated)) == Some(b);
    assert FindFromAsWritten(b, 1, 1, false, NoneOutdated) == (b, Absent(1));
    assert FindFromAsWritten(b, 1, 0, false, NoneOutdated) == (b, Absent(1));
    assert Add(b, 1, 1, Some(10)) == [Pair(2, 20), Pair(1, 10)];
  }
}
