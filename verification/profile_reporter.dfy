/** The text report of one profiler (kotlin-native/runtime/src/main/cpp/profiler/ProfileReporter.hpp).
    The records are grouped level by level into a tree: the first level by event, every further
    level by one more backtrace frame. Each node carries the hits of the records below it, siblings
    are listed by descending hits, and every node is printed as one line indented two spaces per
    level. The enumeration order of the count map is an input (`keys`), because an `unordered_map`
    fixes no order. */
module ProfileReporter {
  import opened Wrappers
  import opened Text
  import opened EventRecords
  import opened EventCounts

  type Path<E> = seq<ContextEntry<E>>

  ghost predicate NoDup<T>(s: seq<T>) {
    forall i, j | 0 <= i < j < |s| :: s[i] != s[j]
  }

  /** `e` is the entry at `level` of some record. */
  ghost predicate Occurs<E>(records: seq<Record<E>>, level: nat, e: ContextEntry<E>) {
    exists r | r in records :: level < |Entries(r)| && Entries(r)[level] == e
  }

  /** Some record continues `p` from `level` on. */
  ghost predicate PathAt<E>(records: seq<Record<E>>, level: nat, p: Path<E>) {
    exists r | r in records :: level + |p| <= |Entries(r)| && Entries(r)[level..level + |p|] == p
  }

  // ---------------------------------------------------------------------------------------------
  // One level: `printRecordEventsOnLevel`

  /** `uniq(mapToVector(records, entries()[level]))`: the entries at `level`, each once, in order
      of first occurrence. */
  function EntriesOnLevel<E(==)>(records: seq<Record<E>>, level: nat): (es: Path<E>)
    requires forall r | r in records :: level < |Entries(r)|
    ensures NoDup(es)
    ensures forall r | r in records :: Entries(r)[level] in es
    ensures forall i | 0 <= i < |es| :: Occurs(records, level, es[i])
    decreases |records|
  {
    if |records| == 0 then []
    else
      var init := records[..|records| - 1];
      var last := records[|records| - 1];
      assert forall r | r in init :: r in records;
      assert forall r | r in records :: r in init || r == last;
      var es := EntriesOnLevel(init, level);
      if Entries(last)[level] in es then es else es + [Entries(last)[level]]
  }

  /** `recordsOfEntry[e]`: the records whose entry at `level` is `e`, in their original order. */
  function RecordsOfEntry<E(==)>(records: seq<Record<E>>, level: nat, e: ContextEntry<E>): (group: seq<Record<E>>)
    requires forall r | r in records :: level < |Entries(r)|
    ensures forall r | r in group :: r in records && Entries(r)[level] == e
    ensures forall r | r in records && Entries(r)[level] == e :: r in group
    decreases |records|
  {
    if |records| == 0 then []
    else
      var rest := RecordsOfEntry(records[1..], level, e);
      if Entries(records[0])[level] == e then [records[0]] + rest else rest
  }

  /** `std::accumulate` of `eventCounts_.at(record)` over `rs`. */
  function HitsOf<E(==)>(counts: Counts<Record<E>>, rs: seq<Record<E>>): nat
    requires forall r | r in rs :: r in counts
  {
    if |rs| == 0 then 0 else counts[rs[0]] + HitsOf(counts, rs[1..])
  }

  /** An entry of a level with its accumulated hits. */
  datatype Bucket<E> = Bucket(entry: ContextEntry<E>, hits: nat)

  /** `associateWith(entriesOnLevel, ...)`: every entry paired with the hits of its group. */
  function Buckets<E(==)>(counts: Counts<Record<E>>, records: seq<Record<E>>, level: nat, es: Path<E>): (bs: seq<Bucket<E>>)
    requires forall r | r in records :: r in counts && level < |Entries(r)|
    ensures |bs| == |es|
    ensures forall i | 0 <= i < |bs| :: bs[i].entry == es[i]
    ensures forall i | 0 <= i < |bs| :: bs[i].hits == HitsOf(counts, RecordsOfEntry(records, level, es[i]))
  {
    if |es| == 0 then []
    else [Bucket(es[0], HitsOf(counts, RecordsOfEntry(records, level, es[0])))] + Buckets(counts, records, level, es[1..])
  }

  function SumHits<E>(bs: seq<Bucket<E>>): nat {
    if |bs| == 0 then 0 else bs[0].hits + SumHits(bs[1..])
  }

  predicate SortedDesc<E>(bs: seq<Bucket<E>>) {
    forall i, j | 0 <= i < j < |bs| :: bs[i].hits >= bs[j].hits
  }

  ghost predicate DistinctEntries<E>(bs: seq<Bucket<E>>) {
    forall i, j | 0 <= i < j < |bs| :: bs[i].entry != bs[j].entry
  }

  /** Inserts `b` in front of the first bucket with no more hits than it. */
  function Insert<E>(b: Bucket<E>, sorted: seq<Bucket<E>>): (r: seq<Bucket<E>>)
    requires SortedDesc(sorted)
    ensures SortedDesc(r)
    ensures multiset(r) == multiset(sorted) + multiset{b}
    ensures SumHits(r) == b.hits + SumHits(sorted)
  {
    if |sorted| == 0 || b.hits >= sorted[0].hits then
      HeadBound(sorted, b.hits);
      Cons(b, sorted);
      [b] + sorted
    else
      var tail := sorted[1..];
      Uncons(sorted);
      var rest := Insert(b, tail);
      InsertBound(b, tail, rest, sorted[0].hits);
      Cons(sorted[0], rest);
      [sorted[0]] + rest
  }

  /** No bucket of a sorted sequence has more hits than its head. */
  lemma HeadBound<E>(sorted: seq<Bucket<E>>, h: nat)
    requires SortedDesc(sorted)
    requires |sorted| > 0 ==> sorted[0].hits <= h
    ensures forall x | x in sorted :: x.hits <= h
  {
    forall x | x in sorted
      ensures x.hits <= h
    {
      var i :| 0 <= i < |sorted| && sorted[i] == x;
      assert i == 0 || sorted[0].hits >= sorted[i].hits;
    }
  }

  /** A sorted sequence is its head in front of a sorted tail with no more hits. */
  lemma Uncons<E>(sorted: seq<Bucket<E>>)
    requires |sorted| > 0 && SortedDesc(sorted)
    ensures SortedDesc(sorted[1..])
    ensures forall x | x in sorted[1..] :: x.hits <= sorted[0].hits
    ensures multiset(sorted) == multiset{sorted[0]} + multiset(sorted[1..])
  {
    assert sorted == [sorted[0]] + sorted[1..];
    HeadBound(sorted, sorted[0].hits);
  }

  /** Putting a bucket with the most hits in front keeps the order and adds its hits. */
  lemma Cons<E>(top: Bucket<E>, rest: seq<Bucket<E>>)
    requires SortedDesc(rest)
    requires forall x | x in rest :: x.hits <= top.hits
    ensures SortedDesc([top] + rest)
    ensures SumHits([top] + rest) == top.hits + SumHits(rest)
    ensures multiset([top] + rest) == multiset{top} + multiset(rest)
  {
    var r := [top] + rest;
    assert r[1..] == rest;
    forall i, j | 0 <= i < j < |r|
      ensures r[i].hits >= r[j].hits
    {
      assert r[j] == rest[j - 1];
      assert r[j] in rest;
      if i > 0 {
        assert r[i] == rest[i - 1];
      }
    }
  }

  lemma InsertBound<E>(b: Bucket<E>, tail: seq<Bucket<E>>, rest: seq<Bucket<E>>, top: nat)
    requires multiset(rest) == multiset(tail) + multiset{b}
    requires b.hits <= top
    requires forall x | x in tail :: x.hits <= top
    ensures forall x | x in rest :: x.hits <= top
  {
    forall x | x in rest
      ensures x.hits <= top
    {
      assert x in multiset(rest);
      assert x == b || x in multiset(tail);
    }
  }

  /** `sortBy(..., true)`: by descending hits; buckets with equal hits keep their order. */
  function SortByHits<E>(bs: seq<Bucket<E>>): (r: seq<Bucket<E>>)
    ensures SortedDesc(r)
    ensures multiset(r) == multiset(bs)
    ensures SumHits(r) == SumHits(bs)
  {
    if |bs| == 0 then []
    else
      var rest := SortByHits(bs[1..]);
      assert bs == [bs[0]] + bs[1..];
      Insert(bs[0], rest)
  }

  lemma InsertMember<E>(b: Bucket<E>, tail: seq<Bucket<E>>, rest: seq<Bucket<E>>, x: Bucket<E>)
    requires multiset(rest) == multiset(tail) + multiset{b}
    requires x in rest
    ensures x == b || x in tail
  {
    assert x in multiset(rest);
  }

  lemma {:induction false} InsertDistinct<E>(b: Bucket<E>, sorted: seq<Bucket<E>>)
    requires SortedDesc(sorted) && DistinctEntries(sorted)
    requires forall x | x in sorted :: x.entry != b.entry
    ensures DistinctEntries(Insert(b, sorted))
    decreases |sorted|
  {
    if |sorted| > 0 && b.hits < sorted[0].hits {
      var tail := sorted[1..];
      var rest := Insert(b, tail);
      assert forall x | x in tail :: x in sorted;
      InsertDistinct(b, tail);
      forall x | x in rest
        ensures x.entry != sorted[0].entry
      {
        InsertMember(b, tail, rest, x);
      }
    }
  }

  /** Sorting keeps the entries of the buckets distinct. */
  lemma {:induction false} SortByHitsDistinct<E>(bs: seq<Bucket<E>>)
    requires DistinctEntries(bs)
    ensures DistinctEntries(SortByHits(bs))
    decreases |bs|
  {
    if |bs| > 0 {
      var rest := SortByHits(bs[1..]);
      SortByHitsDistinct(bs[1..]);
      forall x | x in rest
        ensures x.entry != bs[0].entry
      {
        assert x in multiset(rest);
        assert x in bs[1..];
      }
      InsertDistinct(bs[0], rest);
    }
  }

  /** The buckets with exactly `h` hits, in order. */
  ghost function WithHits<E>(bs: seq<Bucket<E>>, h: nat): seq<Bucket<E>> {
    if |bs| == 0 then [] else (if bs[0].hits == h then [bs[0]] else []) + WithHits(bs[1..], h)
  }

  lemma {:induction false} WithHitsAppend<E>(a: seq<Bucket<E>>, b: seq<Bucket<E>>, h: nat)
    ensures WithHits(a + b, h) == WithHits(a, h) + WithHits(b, h)
    decreases |a|
  {
    if |a| == 0 {
      assert a + b == b;
    } else {
      WithHitsAppend(a[1..], b, h);
      assert (a + b)[1..] == a[1..] + b;
    }
  }

  lemma {:induction false} InsertStable<E>(b: Bucket<E>, sorted: seq<Bucket<E>>, h: nat)
    requires SortedDesc(sorted)
    ensures WithHits(Insert(b, sorted), h) == WithHits([b] + sorted, h)
    decreases |sorted|
  {
    if |sorted| > 0 && b.hits < sorted[0].hits {
      var s0 := sorted[0];
      var tail := sorted[1..];
      InsertStep(b, sorted);
      InsertStable(b, tail, h);
      WithHitsAppend([s0], Insert(b, tail), h);
      WithHitsAppend([b], tail, h);
      WithHitsAppend([b], sorted, h);
      WithHitsAppend([s0], tail, h);
      WithHitsSwap(b, s0, h);
      SwapFront(WithHits([s0], h), WithHits([b], h), WithHits(tail, h));
    }
  }

  lemma SwapFront<T>(x: seq<T>, y: seq<T>, t: seq<T>)
    requires x + y == y + x
    ensures x + (y + t) == y + (x + t)
  {
    assert x + (y + t) == (x + y) + t;
    assert y + (x + t) == (y + x) + t;
  }

  /** Inserting behind a heavier head keeps the head in front. */
  lemma InsertStep<E>(b: Bucket<E>, sorted: seq<Bucket<E>>)
    requires SortedDesc(sorted) && |sorted| > 0 && b.hits < sorted[0].hits
    ensures SortedDesc(sorted[1..])
    ensures sorted == [sorted[0]] + sorted[1..]
    ensures Insert(b, sorted) == [sorted[0]] + Insert(b, sorted[1..])
  {
    Uncons(sorted);
  }

  /** Buckets with different hits never both have `h` hits, so their order does not matter. */
  lemma WithHitsSwap<E>(x: Bucket<E>, y: Bucket<E>, h: nat)
    requires x.hits != y.hits
    ensures WithHits([y], h) + WithHits([x], h) == WithHits([x], h) + WithHits([y], h)
  {
    assert [x][1..] == [] && [y][1..] == [];
  }

  /** The sort is stable: for every hit count, the buckets with that count appear in the same
      order before and after sorting. */
  lemma {:induction false} SortByHitsStable<E>(bs: seq<Bucket<E>>, h: nat)
    ensures WithHits(SortByHits(bs), h) == WithHits(bs, h)
    decreases |bs|
  {
    if |bs| > 0 {
      SortByHitsStable(bs[1..], h);
      InsertStable(bs[0], SortByHits(bs[1..]), h);
      WithHitsAppend([bs[0]], SortByHits(bs[1..]), h);
      WithHitsAppend([bs[0]], bs[1..], h);
      assert bs == [bs[0]] + bs[1..];
    }
  }

  /** Splitting the first record off: it adds its count to the bucket of its entry, if any. */
  lemma {:induction false} BucketsSplit<E>(counts: Counts<Record<E>>, records: seq<Record<E>>, level: nat, es: Path<E>)
    requires |records| > 0
    requires forall r | r in records :: r in counts && level < |Entries(r)|
    requires NoDup(es)
    ensures SumHits(Buckets(counts, records, level, es))
         == (if Entries(records[0])[level] in es then counts[records[0]] else 0)
            + SumHits(Buckets(counts, records[1..], level, es))
    decreases |es|
  {
    if |es| > 0 {
      assert forall r | r in records[1..] :: r in records;
      BucketsSplit(counts, records, level, es[1..]);
      GroupSplit(counts, records, level, es[0]);
    }
  }

  /** The group of `e` gains the first record's count when that record belongs to it. */
  lemma GroupSplit<E>(counts: Counts<Record<E>>, records: seq<Record<E>>, level: nat, e: ContextEntry<E>)
    requires |records| > 0
    requires forall r | r in records :: r in counts && level < |Entries(r)|
    ensures HitsOf(counts, RecordsOfEntry(records, level, e))
         == (if Entries(records[0])[level] == e then counts[records[0]] else 0)
            + HitsOf(counts, RecordsOfEntry(records[1..], level, e))
  {
    var g' := RecordsOfEntry(records[1..], level, e);
    if Entries(records[0])[level] == e {
      assert ([records[0]] + g')[1..] == g';
    }
  }

  /** The buckets partition the records: their hits add up to the hits of all records. */
  lemma {:induction false} BucketsPartition<E>(counts: Counts<Record<E>>, records: seq<Record<E>>, level: nat, es: Path<E>)
    requires forall r | r in records :: r in counts && level < |Entries(r)|
    requires NoDup(es)
    requires forall r | r in records :: Entries(r)[level] in es
    ensures SumHits(Buckets(counts, records, level, es)) == HitsOf(counts, records)
    decreases |records|
  {
    if |records| == 0 {
      BucketsEmpty(counts, records, level, es);
    } else {
      BucketsSplit(counts, records, level, es);
      assert forall r | r in records[1..] :: r in records;
      BucketsPartition(counts, records[1..], level, es);
    }
  }

  lemma {:induction false} BucketsEmpty<E>(counts: Counts<Record<E>>, records: seq<Record<E>>, level: nat, es: Path<E>)
    requires records == []
    ensures SumHits(Buckets(counts, records, level, es)) == 0
    decreases |es|
  {
    if |es| > 0 {
      BucketsEmpty(counts, records, level, es[1..]);
    }
  }

  /** Lines 38-49 of the reporter: the entries of a level with their accumulated hits, sorted by
      descending hits. */
  function SortedBuckets<E(==)>(counts: Counts<Record<E>>, records: seq<Record<E>>, level: nat): (bs: seq<Bucket<E>>)
    requires forall r | r in records :: r in counts && level < |Entries(r)|
    ensures SortedDesc(bs)
    ensures DistinctEntries(bs)
    ensures forall i | 0 <= i < |bs| :: Occurs(records, level, bs[i].entry)
    ensures forall i | 0 <= i < |bs| :: bs[i].hits == HitsOf(counts, RecordsOfEntry(records, level, bs[i].entry))
    ensures forall r | r in records :: exists i | 0 <= i < |bs| :: bs[i].entry == Entries(r)[level]
    ensures SumHits(bs) == HitsOf(counts, records)
  {
    var es := EntriesOnLevel(records, level);
    var unsorted := Buckets(counts, records, level, es);
    var sorted := SortByHits(unsorted);
    BucketsPartition(counts, records, level, es);
    assert DistinctEntries(unsorted);
    SortByHitsDistinct(unsorted);
    SortedBucketsMembers(counts, records, level, es, unsorted, sorted);
    SortedBucketsCover(records, level, es, unsorted, sorted);
    sorted
  }

  lemma SortedBucketsMembers<E>(counts: Counts<Record<E>>, records: seq<Record<E>>, level: nat, es: Path<E>,
                                 unsorted: seq<Bucket<E>>, sorted: seq<Bucket<E>>)
    requires forall r | r in records :: r in counts && level < |Entries(r)|
    requires es == EntriesOnLevel(records, level)
    requires unsorted == Buckets(counts, records, level, es)
    requires multiset(sorted) == multiset(unsorted)
    ensures forall i | 0 <= i < |sorted| :: Occurs(records, level, sorted[i].entry)
    ensures forall i | 0 <= i < |sorted| :: sorted[i].hits == HitsOf(counts, RecordsOfEntry(records, level, sorted[i].entry))
  {
    SameMembers(sorted, unsorted);
  }

  lemma SortedBucketsCover<E>(records: seq<Record<E>>, level: nat, es: Path<E>,
                              unsorted: seq<Bucket<E>>, sorted: seq<Bucket<E>>)
    requires forall r | r in records :: level < |Entries(r)| && Entries(r)[level] in es
    requires |unsorted| == |es| && forall i | 0 <= i < |unsorted| :: unsorted[i].entry == es[i]
    requires multiset(sorted) == multiset(unsorted)
    ensures forall r | r in records :: exists i | 0 <= i < |sorted| :: sorted[i].entry == Entries(r)[level]
  {
    SameMembers(unsorted, sorted);
    forall r | r in records
      ensures exists i | 0 <= i < |sorted| :: sorted[i].entry == Entries(r)[level]
    {
      var j :| 0 <= j < |es| && es[j] == Entries(r)[level];
      var i :| 0 <= i < |sorted| && sorted[i] == unsorted[j];
    }
  }

  lemma SameMembers<T>(a: seq<T>, b: seq<T>)
    requires multiset(a) == multiset(b)
    ensures forall i | 0 <= i < |a| :: exists j | 0 <= j < |b| :: b[j] == a[i]
    ensures forall j | 0 <= j < |b| :: exists i | 0 <= i < |a| :: a[i] == b[j]
  {
    forall i | 0 <= i < |a|
      ensures exists j | 0 <= j < |b| :: b[j] == a[i]
    {
      assert a[i] in multiset(b);
    }
    forall j | 0 <= j < |b|
      ensures exists i | 0 <= i < |a| :: a[i] == b[j]
    {
      assert b[j] in multiset(a);
    }
  }

  // ---------------------------------------------------------------------------------------------
  // The tree: `printWithSubentries` and the recursion through the levels

  /** A printed line and the subtree printed below it, one indentation step deeper. */
  datatype Node<E> = Node(entry: ContextEntry<E>, hits: nat, children: seq<Node<E>>)

  /** What every level needs: the records are keys of the map, each has an entry at `level`,
      and none is longer than `maxLen` (which bounds the depth of the recursion). */
  ghost predicate LevelInput<E>(counts: Counts<Record<E>>, records: seq<Record<E>>, level: nat, maxLen: nat) {
    forall r | r in records :: r in counts && level < |Entries(r)| <= maxLen
  }

  /** The records of a group that go on below `level`: the ones the next level is built from. */
  function Deeper<E>(group: seq<Record<E>>, level: nat): (deeper: seq<Record<E>>)
    ensures forall r | r in deeper :: r in group && level + 1 < |Entries(r)|
    ensures forall r | r in group && level + 1 < |Entries(r)| :: r in deeper
  {
    if |group| == 0 then []
    else
      var rest := Deeper(group[1..], level);
      if level + 1 < |Entries(group[0])| then [group[0]] + rest else rest
  }

  /** The recursion decision of `printWithSubentries` as written: the first record of the group
      decides whether the group is printed one level deeper, and that level then reads
      `entries()[level + 1]` of every record of the group. `None` stands for a read past the end
      of a shorter record's entries. */
  function SubentriesAsWritten<E(==)>(group: seq<Record<E>>, level: nat): (next: Option<seq<Record<E>>>)
    requires |group| > 0
    ensures next.Some? && next.value != [] ==> next.value == group && level + 1 < |Entries(group[0])|
    ensures next == Some([]) ==> |Entries(group[0])| <= level + 1
  {
    if level < |Entries(group[0])| - 1 then
      if forall g | g in group :: level + 1 < |Entries(g)| then Some(group) else None
    else Some([])
  }

  /** A group at level 1 whose first record is the longer one: the next level reads past the end
      of the shorter record. */
  lemma SubentriesAsWrittenOverruns()
    ensures var records := [Record(0, [1, 2]), Record(0, [1])];
            RecordsOfEntry(records, 1, FrameEntry(1)) == records
            && SubentriesAsWritten(records, 1) == None
  {
    var records := [Record(0, [1, 2]), Record(0, [1])];
    assert Entries(records[0])[1] == FrameEntry(1);
    assert Entries(records[1])[1] == FrameEntry(1);
    assert |Entries(records[1])| == 2;
    assert records[1] in records;
  }

  /** The same group with the shorter record first: no deeper level is printed, so frame 2 of the
      longer record is missing from the report, while the corrected rule continues with it. */
  lemma SubentriesAsWrittenDrops()
    ensures var records := [Record(0, [1]), Record(0, [1, 2])];
            RecordsOfEntry(records, 1, FrameEntry(1)) == records
            && SubentriesAsWritten(records, 1) == Some([])
            && Deeper(records, 1) == [Record(0, [1, 2])]
  {
    var records := [Record(0, [1]), Record(0, [1, 2])];
    assert Entries(records[0])[1] == FrameEntry(1);
    assert Entries(records[1])[1] == FrameEntry(1);
    assert |Entries(records[0])| == 2;
  }

  ghost predicate IsProperPrefix<T>(p: seq<T>, q: seq<T>) {
    |p| < |q| && q[..|p|] == p
  }

  /** No record's path is a proper prefix of another's: what the source's rule silently needs. */
  ghost predicate PrefixFree<E>(records: seq<Record<E>>) {
    forall a, b | a in records && b in records :: !IsProperPrefix(Entries(a), Entries(b))
  }

  /** On the groups the source can print without fault, the corrected rule decides the same:
      when the records of a group share their path up to `level` and none is a proper prefix of
      another, they all stop at this level or all go on. */
  lemma SubentriesAgree<E>(group: seq<Record<E>>, level: nat)
    requires |group| > 0
    requires forall g | g in group :: level < |Entries(g)|
    requires forall a, b | a in group && b in group :: Entries(a)[..level + 1] == Entries(b)[..level + 1]
    requires PrefixFree(group)
    ensures SubentriesAsWritten(group, level) == Some(Deeper(group, level))
  {
    var first := Entries(group[0]);
    assert group[0] in group;
    if level + 1 < |first| {
      forall g | g in group
        ensures level + 1 < |Entries(g)|
      {
        assert !IsProperPrefix(Entries(g), first);
        assert first[..level + 1] == Entries(g)[..level + 1];
      }
      DeeperAll(group, level);
    } else {
      forall g | g in group
        ensures |Entries(g)| <= level + 1
      {
        assert !IsProperPrefix(first, Entries(g));
        assert first == first[..level + 1];
        assert Entries(g)[..|first|] == Entries(g)[..level + 1];
      }
      DeeperNone(group, level);
    }
  }

  lemma {:induction false} DeeperAll<E>(group: seq<Record<E>>, level: nat)
    requires forall g | g in group :: level + 1 < |Entries(g)|
    ensures Deeper(group, level) == group
    decreases |group|
  {
    if |group| > 0 {
      assert forall g | g in group[1..] :: g in group;
      DeeperAll(group[1..], level);
      assert group == [group[0]] + group[1..];
    }
  }

  lemma {:induction false} DeeperNone<E>(group: seq<Record<E>>, level: nat)
    requires forall g | g in group :: |Entries(g)| <= level + 1
    ensures Deeper(group, level) == []
    decreases |group|
  {
    if |group| > 0 {
      assert forall g | g in group[1..] :: g in group;
      DeeperNone(group[1..], level);
    }
  }

  /** `printWithSubentries` for the bucket `b`: the node of its entry, and below it the tree of
      those records of its group that go deeper. */
  function NodeOf<E(==)>(counts: Counts<Record<E>>, records: seq<Record<E>>, level: nat, maxLen: nat,
                         b: Bucket<E>): (n: Node<E>)
    requires LevelInput(counts, records, level, maxLen)
    ensures n.entry == b.entry && n.hits == b.hits
    decreases maxLen - level, 0, 0
  {
    var deeper := Deeper(RecordsOfEntry(records, level, b.entry), level);
    DeeperInput(counts, records, level, maxLen, b.entry);
    Node(b.entry, b.hits, if |deeper| == 0 then [] else Level(counts, deeper, level + 1, maxLen))
  }

  /** The deeper part of a group is a valid input one level down, and is empty unless that level
      still lies within `maxLen`. */
  lemma DeeperInput<E>(counts: Counts<Record<E>>, records: seq<Record<E>>, level: nat, maxLen: nat,
                       e: ContextEntry<E>)
    requires LevelInput(counts, records, level, maxLen)
    ensures var deeper := Deeper(RecordsOfEntry(records, level, e), level);
            LevelInput(counts, deeper, level + 1, maxLen) && (|deeper| > 0 ==> level + 1 < maxLen)
  {
    var deeper := Deeper(RecordsOfEntry(records, level, e), level);
    if |deeper| > 0 {
      assert deeper[0] in deeper;
    }
  }

  /** The loop of `printRecordEventsOnLevel`: one node per bucket, in order. */
  function Children<E(==)>(counts: Counts<Record<E>>, records: seq<Record<E>>, level: nat, maxLen: nat,
                           sorted: seq<Bucket<E>>): (nodes: seq<Node<E>>)
    requires LevelInput(counts, records, level, maxLen)
    ensures |nodes| == |sorted|
    ensures forall i | 0 <= i < |nodes| :: nodes[i] == NodeOf(counts, records, level, maxLen, sorted[i])
    decreases maxLen - level, 1, |sorted|
  {
    if |sorted| == 0 then []
    else [NodeOf(counts, records, level, maxLen, sorted[0])] + Children(counts, records, level, maxLen, sorted[1..])
  }

  /** `printRecordEventsOnLevel`: the nodes of one level, by descending hits. */
  function Level<E(==)>(counts: Counts<Record<E>>, records: seq<Record<E>>, level: nat, maxLen: nat): (nodes: seq<Node<E>>)
    requires LevelInput(counts, records, level, maxLen)
    decreases maxLen - level, 2, 0
  {
    Children(counts, records, level, maxLen, SortedBuckets(counts, records, level))
  }

  function SumNodes<E>(nodes: seq<Node<E>>): nat {
    if |nodes| == 0 then 0 else nodes[0].hits + SumNodes(nodes[1..])
  }

  /** The tree is printed at `p` (from its top level down). */
  ghost predicate HasPath<E>(nodes: seq<Node<E>>, p: Path<E>)
    decreases |p|, 1
  {
    exists i | 0 <= i < |nodes| :: NodeHasPath(nodes[i], p)
  }

  ghost predicate NodeHasPath<E>(n: Node<E>, p: Path<E>)
    decreases |p|, 0
  {
    |p| > 0 && n.entry == p[0] && (|p| == 1 || HasPath(n.children, p[1..]))
  }

  /** Siblings are listed by descending hits and are pairwise distinct; a node's subtree never
      holds more hits than the node. */
  ghost predicate WellFormed<E>(nodes: seq<Node<E>>)
    decreases nodes
  {
    && (forall i, j | 0 <= i < j < |nodes| :: nodes[i].hits >= nodes[j].hits && nodes[i].entry != nodes[j].entry)
    && (forall i | 0 <= i < |nodes| :: SumNodes(nodes[i].children) <= nodes[i].hits && WellFormed(nodes[i].children))
  }

  lemma {:induction false} SumNodesMatch<E>(nodes: seq<Node<E>>, bs: seq<Bucket<E>>)
    requires |nodes| == |bs|
    requires forall i | 0 <= i < |nodes| :: nodes[i].hits == bs[i].hits
    ensures SumNodes(nodes) == SumHits(bs)
    decreases |nodes|
  {
    if |nodes| > 0 {
      SumNodesMatch(nodes[1..], bs[1..]);
    }
  }

  /** Every hit of the level's records is printed exactly once on the level, and each node shows
      the hits of the records whose entry at this level is its own. */
  lemma LevelHits<E>(counts: Counts<Record<E>>, records: seq<Record<E>>, level: nat, maxLen: nat)
    requires LevelInput(counts, records, level, maxLen)
    ensures SumNodes(Level(counts, records, level, maxLen)) == HitsOf(counts, records)
    ensures var nodes := Level(counts, records, level, maxLen);
            forall i | 0 <= i < |nodes| :: nodes[i].hits == HitsOf(counts, RecordsOfEntry(records, level, nodes[i].entry))
  {
    var sorted := SortedBuckets(counts, records, level);
    SumNodesMatch(Children(counts, records, level, maxLen, sorted), sorted);
  }

  lemma {:induction false} HitsOfDeeper<E>(counts: Counts<Record<E>>, group: seq<Record<E>>, level: nat)
    requires forall r | r in group :: r in counts
    ensures HitsOf(counts, Deeper(group, level)) <= HitsOf(counts, group)
    decreases |group|
  {
    if |group| > 0 {
      assert forall r | r in group[1..] :: r in group;
      HitsOfDeeper(counts, group[1..], level);
      var rest := Deeper(group[1..], level);
      if level + 1 < |Entries(group[0])| {
        assert ([group[0]] + rest)[1..] == rest;
      }
    }
  }

  lemma {:induction false} NodeWellFormed<E>(counts: Counts<Record<E>>, records: seq<Record<E>>, level: nat,
                                           maxLen: nat, b: Bucket<E>)
    requires LevelInput(counts, records, level, maxLen)
    requires b.hits == HitsOf(counts, RecordsOfEntry(records, level, b.entry))
    ensures var n := NodeOf(counts, records, level, maxLen, b);
            SumNodes(n.children) <= n.hits && WellFormed(n.children)
    decreases maxLen - level, 0, 0
  {
    var group := RecordsOfEntry(records, level, b.entry);
    var deeper := Deeper(group, level);
    DeeperInput(counts, records, level, maxLen, b.entry);
    HitsOfDeeper(counts, group, level);
    if |deeper| > 0 {
      LevelWellFormed(counts, deeper, level + 1, maxLen);
      LevelHits(counts, deeper, level + 1, maxLen);
    }
  }

  /** Every level, and so the whole tree, satisfies `WellFormed`. */
  lemma {:induction false} LevelWellFormed<E>(counts: Counts<Record<E>>, records: seq<Record<E>>, level: nat, maxLen: nat)
    requires LevelInput(counts, records, level, maxLen)
    ensures WellFormed(Level(counts, records, level, maxLen))
    decreases maxLen - level, 2, 0
  {
    var sorted := SortedBuckets(counts, records, level);
    ChildrenWellFormed(counts, records, level, maxLen, sorted);
  }

  lemma {:induction false} ChildrenWellFormed<E>(counts: Counts<Record<E>>, records: seq<Record<E>>, level: nat,
                                               maxLen: nat, sorted: seq<Bucket<E>>)
    requires LevelInput(counts, records, level, maxLen)
    requires SortedDesc(sorted) && DistinctEntries(sorted)
    requires forall i | 0 <= i < |sorted| :: sorted[i].hits == HitsOf(counts, RecordsOfEntry(records, level, sorted[i].entry))
    ensures WellFormed(Children(counts, records, level, maxLen, sorted))
    decreases maxLen - level, 1, 0
  {
    var nodes := Children(counts, records, level, maxLen, sorted);
    SiblingsOrdered(nodes, sorted);
    forall i | 0 <= i < |nodes|
      ensures SumNodes(nodes[i].children) <= nodes[i].hits && WellFormed(nodes[i].children)
    {
      NodeWellFormed(counts, records, level, maxLen, sorted[i]);
    }
    WellFormedIntro(nodes);
  }

  lemma WellFormedIntro<E>(nodes: seq<Node<E>>)
    requires forall i, j | 0 <= i < j < |nodes| :: nodes[i].hits >= nodes[j].hits && nodes[i].entry != nodes[j].entry
    requires forall i | 0 <= i < |nodes| :: SumNodes(nodes[i].children) <= nodes[i].hits && WellFormed(nodes[i].children)
    ensures WellFormed(nodes)
  {
  }

  lemma SiblingsOrdered<E>(nodes: seq<Node<E>>, sorted: seq<Bucket<E>>)
    requires |nodes| == |sorted|
    requires forall i | 0 <= i < |nodes| :: nodes[i].entry == sorted[i].entry && nodes[i].hits == sorted[i].hits
    requires SortedDesc(sorted) && DistinctEntries(sorted)
    ensures forall i, j | 0 <= i < j < |nodes| :: nodes[i].hits >= nodes[j].hits && nodes[i].entry != nodes[j].entry
  {
  }

  /** A slice starts with `p` exactly when it starts with `p[0]` and goes on with the rest of `p`. */
  lemma SliceStep<T>(s: seq<T>, level: nat, p: seq<T>)
    requires |p| > 0 && level + |p| <= |s|
    ensures s[level..level + |p|] == p <==> s[level] == p[0] && s[level + 1..level + |p|] == p[1..]
  {
    assert s[level..level + |p|] == [s[level]] + s[level + 1..level + |p|];
    assert p == [p[0]] + p[1..];
  }

  /** One step down: a path through entry `p[0]` continues from `level` in the group of `p[0]`
      exactly when its tail continues from `level + 1` in the deeper part of the group. */
  lemma PathAtDeeper<E>(records: seq<Record<E>>, level: nat, p: Path<E>)
    requires forall r | r in records :: level < |Entries(r)|
    requires |p| > 1
    ensures var group := RecordsOfEntry(records, level, p[0]);
            PathAt(group, level, p) <==> PathAt(Deeper(group, level), level + 1, p[1..])
  {
    var group := RecordsOfEntry(records, level, p[0]);
    if PathAt(group, level, p) {
      PathAtDown(group, level, p);
    }
    if PathAt(Deeper(group, level), level + 1, p[1..]) {
      PathAtUp(group, Deeper(group, level), level, p);
    }
  }

  lemma PathAtDown<E>(group: seq<Record<E>>, level: nat, p: Path<E>)
    requires |p| > 1
    requires PathAt(group, level, p)
    ensures PathAt(Deeper(group, level), level + 1, p[1..])
  {
    var r :| r in group && level + |p| <= |Entries(r)| && Entries(r)[level..level + |p|] == p;
    var path := Entries(r);
    SliceStep(path, level, p);
    assert level + 1 + |p[1..]| == level + |p|;
    assert path[level + 1..level + 1 + |p[1..]|] == p[1..];
    assert r in Deeper(group, level);
  }

  lemma PathAtUp<E>(group: seq<Record<E>>, deeper: seq<Record<E>>, level: nat, p: Path<E>)
    requires |p| > 1
    requires forall r | r in group :: level < |Entries(r)| && Entries(r)[level] == p[0]
    requires forall r | r in deeper :: r in group
    requires PathAt(deeper, level + 1, p[1..])
    ensures PathAt(group, level, p)
  {
    var q := p[1..];
    var r := PathAtWitness(deeper, level + 1, q);
    PathAtExtend(group, level, p[0], q, r);
    assert [p[0]] + q == p;
  }

  /** A record of the group that goes on with the tail of `p` after `p[0]` carries `p`. */
  lemma PathAtExtend<E>(group: seq<Record<E>>, level: nat, x: ContextEntry<E>, q: Path<E>, r: Record<E>)
    requires r in group
    requires level + 1 + |q| <= |Entries(r)| && Entries(r)[level] == x
    requires Entries(r)[level + 1..level + 1 + |q|] == q
    ensures PathAt(group, level, [x] + q)
  {
    SliceCons(Entries(r), level, x, q);
    PathAtIntro(group, level, [x] + q, r);
  }

  lemma PathAtWitness<E>(records: seq<Record<E>>, level: nat, p: Path<E>) returns (r: Record<E>)
    requires PathAt(records, level, p)
    ensures r in records && level + |p| <= |Entries(r)| && Entries(r)[level..level + |p|] == p
  {
    r :| r in records && level + |p| <= |Entries(r)| && Entries(r)[level..level + |p|] == p;
  }

  lemma PathAtIntro<E>(records: seq<Record<E>>, level: nat, p: Path<E>, r: Record<E>)
    requires r in records && level + |p| <= |Entries(r)| && Entries(r)[level..level + |p|] == p
    ensures PathAt(records, level, p)
  {
  }

  /** A slice that starts with `x` and goes on with `q`. */
  lemma SliceCons<T>(s: seq<T>, level: nat, x: T, q: seq<T>)
    requires level + 1 + |q| <= |s|
    requires s[level] == x && s[level + 1..level + 1 + |q|] == q
    ensures s[level..level + 1 + |q|] == [x] + q
  {
    assert s[level..level + 1 + |q|] == [s[level]] + s[level + 1..level + 1 + |q|];
  }

  /** The node of a bucket carries exactly the paths through its entry of the entry's group. */
  lemma NodePaths<E>(counts: Counts<Record<E>>, records: seq<Record<E>>, level: nat, maxLen: nat,
                     b: Bucket<E>, p: Path<E>)
    requires LevelInput(counts, records, level, maxLen)
    requires Occurs(records, level, b.entry)
    requires |p| > 0
    ensures NodeHasPath(NodeOf(counts, records, level, maxLen, b), p)
        <==> b.entry == p[0] && PathAt(RecordsOfEntry(records, level, p[0]), level, p)
    decreases maxLen - level, 1, 0
  {
    var n := NodeOf(counts, records, level, maxLen, b);
    if b.entry != p[0] {
      assert !NodeHasPath(n, p);
    } else if |p| == 1 {
      assert NodeHasPath(n, p);
      PathAtSingle(records, level, p);
    } else {
      NodePathsDeep(counts, records, level, maxLen, b, p);
    }
  }

  /** A one-entry path occurs from `level` in the group of its entry when the entry occurs there. */
  lemma PathAtSingle<E>(records: seq<Record<E>>, level: nat, p: Path<E>)
    requires |p| == 1
    requires forall r | r in records :: level < |Entries(r)|
    requires Occurs(records, level, p[0])
    ensures PathAt(RecordsOfEntry(records, level, p[0]), level, p)
  {
    var r :| r in records && level < |Entries(r)| && Entries(r)[level] == p[0];
    assert r in RecordsOfEntry(records, level, p[0]);
    assert Entries(r)[level..level + 1] == p;
  }

  lemma {:induction false} NodePathsDeep<E>(counts: Counts<Record<E>>, records: seq<Record<E>>, level: nat,
                                          maxLen: nat, b: Bucket<E>, p: Path<E>)
    requires LevelInput(counts, records, level, maxLen)
    requires |p| > 1 && b.entry == p[0]
    ensures NodeHasPath(NodeOf(counts, records, level, maxLen, b), p)
        <==> PathAt(RecordsOfEntry(records, level, p[0]), level, p)
    decreases maxLen - level, 0, 0
  {
    var deeper := Deeper(RecordsOfEntry(records, level, p[0]), level);
    DeeperInput(counts, records, level, maxLen, p[0]);
    PathAtDeeper(records, level, p);
    if |deeper| > 0 {
      LevelPaths(counts, deeper, level + 1, maxLen, p[1..]);
    }
  }

  /** A level prints exactly the continuations of its records: a path appears in the tree of the
      level if and only if some record continues with it from `level` on. */
  lemma LevelPaths<E>(counts: Counts<Record<E>>, records: seq<Record<E>>, level: nat, maxLen: nat, p: Path<E>)
    requires LevelInput(counts, records, level, maxLen)
    requires |p| > 0
    ensures HasPath(Level(counts, records, level, maxLen), p) <==> PathAt(records, level, p)
    decreases maxLen - level, 3, 0
  {
    if HasPath(Level(counts, records, level, maxLen), p) {
      LevelPathsSound(counts, records, level, maxLen, p);
    }
    if PathAt(records, level, p) {
      LevelPathsComplete(counts, records, level, maxLen, p);
    }
  }

  lemma {:induction false} LevelPathsSound<E>(counts: Counts<Record<E>>, records: seq<Record<E>>, level: nat,
                                            maxLen: nat, p: Path<E>)
    requires LevelInput(counts, records, level, maxLen)
    requires |p| > 0
    requires HasPath(Level(counts, records, level, maxLen), p)
    ensures PathAt(records, level, p)
    decreases maxLen - level, 2, 0
  {
    var sorted := SortedBuckets(counts, records, level);
    var nodes := Children(counts, records, level, maxLen, sorted);
    var group := RecordsOfEntry(records, level, p[0]);
    var i :| 0 <= i < |nodes| && NodeHasPath(nodes[i], p);
    NodePaths(counts, records, level, maxLen, sorted[i], p);
    var r :| r in group && level + |p| <= |Entries(r)| && Entries(r)[level..level + |p|] == p;
    assert r in records;
  }

  lemma {:induction false} LevelPathsComplete<E>(counts: Counts<Record<E>>, records: seq<Record<E>>, level: nat,
                                               maxLen: nat, p: Path<E>)
    requires LevelInput(counts, records, level, maxLen)
    requires |p| > 0
    requires PathAt(records, level, p)
    ensures HasPath(Level(counts, records, level, maxLen), p)
    decreases maxLen - level, 2, 0
  {
    var sorted := SortedBuckets(counts, records, level);
    var nodes := Children(counts, records, level, maxLen, sorted);
    var group := RecordsOfEntry(records, level, p[0]);
    var r :| r in records && level + |p| <= |Entries(r)| && Entries(r)[level..level + |p|] == p;
    SliceStep(Entries(r), level, p);
    var i :| 0 <= i < |sorted| && sorted[i].entry == Entries(r)[level];
    assert r in group;
    assert PathAt(group, level, p);
    NodePaths(counts, records, level, maxLen, sorted[i], p);
    assert nodes[i] == NodeOf(counts, records, level, maxLen, sorted[i]);
    assert NodeHasPath(nodes[i], p);
  }

  // ---------------------------------------------------------------------------------------------
  // The whole report

  /** `keys` lists every key of `counts` once: an iteration order of the map. */
  ghost predicate Enumerates<E>(counts: Counts<Record<E>>, keys: seq<Record<E>>) {
    && NoDup(keys)
    && (forall r | r in keys :: r in counts)
    && (forall r | r in counts :: r in keys)
  }

  /** The length of the longest path: a bound on the depth of the tree. */
  function MaxLen<E>(records: seq<Record<E>>): (n: nat)
    ensures forall r | r in records :: |Entries(r)| <= n
  {
    if |records| == 0 then 0
    else
      var rest := MaxLen(records[1..]);
      var here := |Entries(records[0])|;
      assert forall r | r in records :: r == records[0] || r in records[1..];
      if here > rest then here else rest
  }

  /** `ProfileReporter::report`: the tree of all records, starting from their events. */
  function ReportTree<E(==)>(counts: Counts<Record<E>>, keys: seq<Record<E>>): (tree: seq<Node<E>>)
    requires forall r | r in keys :: r in counts
  {
    Level(counts, keys, 0, MaxLen(keys))
  }

  lemma {:induction false} HitsOfKeys<E>(counts: Counts<Record<E>>, keys: seq<Record<E>>)
    requires NoDup(keys)
    requires forall r | r in keys :: r in counts
    ensures HitsOf(counts, keys) == SumOver(counts, set r | r in keys)
    decreases |keys|
  {
    var all := set r | r in keys;
    if |keys| == 0 {
      assert all == {};
    } else {
      var tail := keys[1..];
      assert forall r | r in tail :: r in keys;
      HitsOfKeys(counts, tail);
      assert (set r | r in tail) == all - {keys[0]} by {
        forall r | r in all
          ensures r in tail <==> r != keys[0]
        {
          var i :| 0 <= i < |keys| && keys[i] == r;
        }
      }
      SumOverRemove(counts, all, keys[0]);
    }
  }

  /** The tree shows every hit once: its top level adds up to the total of the map. */
  lemma ReportTreeTotal<E>(counts: Counts<Record<E>>, keys: seq<Record<E>>)
    requires Enumerates(counts, keys)
    ensures SumNodes(ReportTree(counts, keys)) == Total(counts)
  {
    var m := MaxLen(keys);
    assert LevelInput(counts, keys, 0, m);
    LevelHits(counts, keys, 0, m);
    HitsOfKeys(counts, keys);
    EnumeratedKeys(counts, keys);
  }

  lemma EnumeratedKeys<E>(counts: Counts<Record<E>>, keys: seq<Record<E>>)
    requires Enumerates(counts, keys)
    ensures (set r | r in keys) == counts.Keys
  {
  }

  /** The tree holds exactly the prefixes of the recorded paths: a path is printed if and only if
      some record of the map starts with it, so every recorded backtrace appears in full. */
  lemma ReportTreePaths<E>(counts: Counts<Record<E>>, keys: seq<Record<E>>, p: Path<E>)
    requires Enumerates(counts, keys)
    requires |p| > 0
    ensures HasPath(ReportTree(counts, keys), p)
        <==> exists r | r in counts :: |p| <= |Entries(r)| && Entries(r)[..|p|] == p
  {
    LevelPaths(counts, keys, 0, MaxLen(keys), p);
    if PathAt(keys, 0, p) {
      var r :| r in keys && |p| <= |Entries(r)| && Entries(r)[0..|p|] == p;
      assert r in counts;
    }
    if exists r | r in counts :: |p| <= |Entries(r)| && Entries(r)[..|p|] == p {
      var r :| r in counts && |p| <= |Entries(r)| && Entries(r)[..|p|] == p;
      assert r in keys;
      assert Entries(r)[0..|p|] == Entries(r)[..|p|];
    }
  }

  /** Every level of the report is ordered by descending hits, lists each entry once, and no
      subtree holds more hits than the line above it. */
  lemma ReportTreeWellFormed<E>(counts: Counts<Record<E>>, keys: seq<Record<E>>)
    requires forall r | r in keys :: r in counts
    ensures WellFormed(ReportTree(counts, keys))
  {
    LevelWellFormed(counts, keys, 0, MaxLen(keys));
  }

  // ---------------------------------------------------------------------------------------------
  // Printing: `IdentedEntryPrinter`

  /** `kIdentStep`: the indentation added per level. */
  const INDENT_STEP: nat := 2

  /** A node to be printed at depth `depth`. */
  datatype Line<E> = Line(depth: nat, hits: nat, entry: ContextEntry<E>)

  /** The order of printing: each node, then its subtree one level deeper, then its siblings. */
  function Lines<E>(nodes: seq<Node<E>>, depth: nat): (lines: seq<Line<E>>)
    ensures |nodes| > 0 ==> |lines| > 0 && lines[0] == Line(depth, nodes[0].hits, nodes[0].entry)
    ensures forall i | 0 <= i < |lines| :: lines[i].depth >= depth
    ensures forall i | 0 < i < |lines| :: lines[i].depth <= lines[i - 1].depth + 1
    ensures |nodes| == 0 <==> lines == []
    decreases nodes
  {
    if |nodes| == 0 then []
    else
      var head := [Line(depth, nodes[0].hits, nodes[0].entry)];
      var sub := Lines(nodes[0].children, depth + 1);
      var rest := Lines(nodes[1..], depth);
      LinesStep(head, sub, depth);
      LinesStep(head + sub, rest, depth);
      head + sub + rest
  }

  lemma LinesStep<E>(a: seq<Line<E>>, b: seq<Line<E>>, depth: nat)
    requires |a| > 0 && a[|a| - 1].depth >= depth
    requires forall i | 0 < i < |a| :: a[i].depth <= a[i - 1].depth + 1
    requires forall i | 0 < i < |b| :: b[i].depth <= b[i - 1].depth + 1
    requires |b| > 0 ==> b[0].depth <= depth + 1
    ensures forall i | 0 < i < |a + b| :: (a + b)[i].depth <= (a + b)[i - 1].depth + 1
  {
  }

  /** The number of nodes of a forest, subtrees included. */
  function NodeCount<E>(nodes: seq<Node<E>>): nat
    decreases nodes
  {
    if |nodes| == 0 then 0 else 1 + NodeCount(nodes[0].children) + NodeCount(nodes[1..])
  }

  /** Every node of the tree is printed on a line of its own, and nothing else is. */
  lemma {:induction false} LinesCount<E>(nodes: seq<Node<E>>, depth: nat)
    ensures |Lines(nodes, depth)| == NodeCount(nodes)
    decreases nodes
  {
    if |nodes| > 0 {
      LinesCount(nodes[0].children, depth + 1);
      LinesCount(nodes[1..], depth);
    }
  }

  /** The path `p` from the top level leads to the node `n`. */
  ghost predicate Reaches<E>(nodes: seq<Node<E>>, p: Path<E>, n: Node<E>)
    decreases |p|, 1
  {
    exists i | 0 <= i < |nodes| :: NodeReaches(nodes[i], p, n)
  }

  ghost predicate NodeReaches<E>(m: Node<E>, p: Path<E>, n: Node<E>)
    decreases |p|, 0
  {
    |p| > 0 && m.entry == p[0] && (if |p| == 1 then m == n else Reaches(m.children, p[1..], n))
  }

  /** A path is in the tree exactly when it leads to some node. */
  lemma {:induction false} HasPathReaches<E>(nodes: seq<Node<E>>, p: Path<E>)
    ensures HasPath(nodes, p) <==> exists n :: Reaches(nodes, p, n)
    decreases |p|
  {
    if HasPath(nodes, p) {
      var i :| 0 <= i < |nodes| && NodeHasPath(nodes[i], p);
      if |p| == 1 {
        assert NodeReaches(nodes[i], p, nodes[i]);
        assert Reaches(nodes, p, nodes[i]);
      } else {
        HasPathReaches(nodes[i].children, p[1..]);
        var n :| Reaches(nodes[i].children, p[1..], n);
        assert NodeReaches(nodes[i], p, n);
        assert Reaches(nodes, p, n);
      }
    }
    if exists n :: Reaches(nodes, p, n) {
      var n :| Reaches(nodes, p, n);
      var i :| 0 <= i < |nodes| && NodeReaches(nodes[i], p, n);
      if |p| > 1 {
        HasPathReaches(nodes[i].children, p[1..]);
        assert Reaches(nodes[i].children, p[1..], n);
      }
      assert NodeHasPath(nodes[i], p);
    }
  }

  /** The node a path leads to is printed: one line at the path's depth with that node's entry
      and hits. */
  lemma {:induction false} LinesCoverPaths<E>(nodes: seq<Node<E>>, depth: nat, p: Path<E>, n: Node<E>)
    requires Reaches(nodes, p, n)
    ensures |p| > 0 && exists i | 0 <= i < |Lines(nodes, depth)| :: Lines(nodes, depth)[i] == Line(depth + |p| - 1, n.hits, n.entry)
    decreases nodes
  {
    var lines := Lines(nodes, depth);
    var sub := Lines(nodes[0].children, depth + 1);
    var rest := Lines(nodes[1..], depth);
    assert lines == [Line(depth, nodes[0].hits, nodes[0].entry)] + sub + rest;
    var k :| 0 <= k < |nodes| && NodeReaches(nodes[k], p, n);
    if k == 0 {
      if |p| == 1 {
        assert lines[0] == Line(depth + |p| - 1, n.hits, n.entry);
      } else {
        LinesCoverPaths(nodes[0].children, depth + 1, p[1..], n);
        var j :| 0 <= j < |sub| && sub[j] == Line(depth + 1 + |p[1..]| - 1, n.hits, n.entry);
        assert lines[1 + j] == sub[j];
      }
    } else {
      assert NodeReaches(nodes[1..][k - 1], p, n);
      LinesCoverPaths(nodes[1..], depth, p, n);
      var j :| 0 <= j < |rest| && rest[j] == Line(depth + |p| - 1, n.hits, n.entry);
      assert lines[1 + |sub| + j] == rest[j];
    }
  }

  /** Every printed line is the node some path leads to, at that path's depth. */
  lemma {:induction false} LinesHavePaths<E>(nodes: seq<Node<E>>, depth: nat, i: nat)
    requires i < |Lines(nodes, depth)|
    ensures exists p, n :: Reaches(nodes, p, n) && |p| > 0 && Lines(nodes, depth)[i] == Line(depth + |p| - 1, n.hits, n.entry)
    decreases nodes
  {
    var lines := Lines(nodes, depth);
    var sub := Lines(nodes[0].children, depth + 1);
    var rest := Lines(nodes[1..], depth);
    assert lines == [Line(depth, nodes[0].hits, nodes[0].entry)] + sub + rest;
    if i == 0 {
      var p := [nodes[0].entry];
      assert NodeReaches(nodes[0], p, nodes[0]);
      assert Reaches(nodes, p, nodes[0]);
    } else if i < 1 + |sub| {
      LinesHavePaths(nodes[0].children, depth + 1, i - 1);
      var q, n :| Reaches(nodes[0].children, q, n) && |q| > 0 && sub[i - 1] == Line(depth + 1 + |q| - 1, n.hits, n.entry);
      var p := [nodes[0].entry] + q;
      assert p[1..] == q;
      assert |q| > 0;
      assert NodeReaches(nodes[0], p, n);
      assert Reaches(nodes, p, n);
      assert lines[i] == sub[i - 1];
    } else {
      LinesHavePaths(nodes[1..], depth, i - 1 - |sub|);
      var p, n :| Reaches(nodes[1..], p, n) && |p| > 0 && rest[i - 1 - |sub|] == Line(depth + |p| - 1, n.hits, n.entry);
      var k :| 0 <= k < |nodes[1..]| && NodeReaches(nodes[1..][k], p, n);
      assert NodeReaches(nodes[k + 1], p, n);
      assert Reaches(nodes, p, n);
      assert lines[i] == rest[i - 1 - |sub|];
    }
  }

  /** A path leads to a node carrying the path's last entry. */
  lemma {:induction false} ReachesLast<E>(nodes: seq<Node<E>>, p: Path<E>, n: Node<E>)
    requires Reaches(nodes, p, n)
    ensures |p| > 0 && n.entry == p[|p| - 1]
    decreases |p|
  {
    var i :| 0 <= i < |nodes| && NodeReaches(nodes[i], p, n);
    if |p| > 1 {
      ReachesLast(nodes[i].children, p[1..], n);
    }
  }

  /** A path of the tree is printed: the node it leads to has a line at the path's depth. */
  lemma PathsArePrinted<E>(nodes: seq<Node<E>>, p: Path<E>)
    requires |p| > 0 && HasPath(nodes, p)
    ensures var lines := Lines(nodes, 0);
            exists n :: Reaches(nodes, p, n) && n.entry == p[|p| - 1]
                        && exists i | 0 <= i < |lines| :: lines[i] == Line(|p| - 1, n.hits, n.entry)
  {
    HasPathReaches(nodes, p);
    var n :| Reaches(nodes, p, n);
    ReachesLast(nodes, p, n);
    LinesCoverPaths(nodes, 0, p, n);
  }

  /** A printed line is the node of a path of the tree, at that path's depth. */
  lemma LinesArePaths<E>(nodes: seq<Node<E>>, i: nat)
    requires i < |Lines(nodes, 0)|
    ensures exists p, n :: Reaches(nodes, p, n) && |p| > 0 && HasPath(nodes, p)
                           && Lines(nodes, 0)[i] == Line(|p| - 1, n.hits, n.entry)
                           && n.entry == p[|p| - 1]
  {
    LinesHavePaths(nodes, 0, i);
    var p, n :| Reaches(nodes, p, n) && |p| > 0 && Lines(nodes, 0)[i] == Line(0 + |p| - 1, n.hits, n.entry);
    ReachesLast(nodes, p, n);
    HasPathReaches(nodes, p);
    assert Reaches(nodes, p, n);
    assert HasPath(nodes, p);
    assert Lines(nodes, 0)[i] == Line(|p| - 1, n.hits, n.entry);
  }

  /** Every prefix of a recorded path is printed: the node it leads to has a line at the depth
      of its last entry, with that node's hits. */
  lemma ReportPrintsPrefixes<E>(counts: Counts<Record<E>>, keys: seq<Record<E>>, r: Record<E>, k: nat)
    requires Enumerates(counts, keys)
    requires r in counts && 0 < k <= |Entries(r)|
    ensures var tree := ReportTree(counts, keys);
            exists n :: Reaches(tree, Entries(r)[..k], n) && n.entry == Entries(r)[k - 1]
                        && exists i | 0 <= i < |Lines(tree, 0)| :: Lines(tree, 0)[i] == Line(k - 1, n.hits, n.entry)
  {
    PrefixInTree(counts, keys, r, k);
    PrefixIsPrinted(ReportTree(counts, keys), Entries(r), k);
  }

  lemma PrefixIsPrinted<E>(tree: seq<Node<E>>, path: Path<E>, k: nat)
    requires 0 < k <= |path| && HasPath(tree, path[..k])
    ensures exists n :: Reaches(tree, path[..k], n) && n.entry == path[k - 1]
                        && exists i | 0 <= i < |Lines(tree, 0)| :: Lines(tree, 0)[i] == Line(k - 1, n.hits, n.entry)
  {
    var p := path[..k];
    PathsArePrinted(tree, p);
    var n :| Reaches(tree, p, n) && n.entry == p[|p| - 1]
             && exists i | 0 <= i < |Lines(tree, 0)| :: Lines(tree, 0)[i] == Line(|p| - 1, n.hits, n.entry);
    assert p[|p| - 1] == path[k - 1];
  }

  lemma PrefixInTree<E>(counts: Counts<Record<E>>, keys: seq<Record<E>>, r: Record<E>, k: nat)
    requires Enumerates(counts, keys)
    requires r in counts && 0 < k <= |Entries(r)|
    ensures HasPath(ReportTree(counts, keys), Entries(r)[..k])
  {
    var p := Entries(r)[..k];
    assert |p| <= |Entries(r)| && Entries(r)[..|p|] == p;
    ReportTreePaths(counts, keys, p);
  }

  /** Every printed line is the node of a prefix of some recorded path, at that prefix's depth. */
  lemma ReportLinesArePrefixes<E>(counts: Counts<Record<E>>, keys: seq<Record<E>>, i: nat)
    requires Enumerates(counts, keys)
    requires i < |Lines(ReportTree(counts, keys), 0)|
    ensures var tree := ReportTree(counts, keys);
            exists p, n :: Reaches(tree, p, n) && |p| > 0
                           && Lines(tree, 0)[i] == Line(|p| - 1, n.hits, n.entry)
                           && n.entry == p[|p| - 1]
                           && exists r | r in counts :: |p| <= |Entries(r)| && Entries(r)[..|p|] == p
  {
    var tree := ReportTree(counts, keys);
    LinesArePaths(tree, i);
    var p, n :| Reaches(tree, p, n) && |p| > 0 && HasPath(tree, p)
                && Lines(tree, 0)[i] == Line(|p| - 1, n.hits, n.entry) && n.entry == p[|p| - 1];
    ReportTreePaths(counts, keys, p);
  }

  /** `hitsStr`: the hits in brackets. */
  function HitsText(hits: nat): string {
    "[" + NatToString(hits) + "]"
  }

  /** `IdentedEntryPrinter::print`: the indentation, the hits in brackets, a space, and the entry.
      An event is shown by `show` (the traits' `str`); a frame by the lines `resolve` gives for
      its address (`GetStackTraceStrings`), each further line indented to where the first began. */
  function RenderLine<E>(line: Line<E>, show: E -> string, resolve: Addr -> seq<string>): (text: string)
    ensures |text| > INDENT_STEP * line.depth
    ensures text[..INDENT_STEP * line.depth] == Spaces(INDENT_STEP * line.depth)
    ensures text[INDENT_STEP * line.depth] == '['
    ensures text[|text| - 1] == '\n'
  {
    var indent := INDENT_STEP * line.depth;
    var hitsText := HitsText(line.hits);
    var body := match line.entry
      case EventEntry(e) => show(e)
      case FrameEntry(a) => Join(resolve(a), "\n" + Spaces(indent + |hitsText| + 1));
    Spaces(indent) + hitsText + " " + body + "\n"
  }

  function LeadingSpaces(s: string): (n: nat)
    ensures n <= |s|
    ensures forall i | 0 <= i < n :: s[i] == ' '
    ensures n < |s| ==> s[n] != ' '
  {
    if |s| > 0 && s[0] == ' ' then 1 + LeadingSpaces(s[1..]) else 0
  }

  function DigitRun(s: string): (n: nat)
    ensures n <= |s|
    ensures forall i | 0 <= i < n :: IsDigit(s[i])
    ensures n < |s| ==> !IsDigit(s[n])
  {
    if |s| > 0 && IsDigit(s[0]) then 1 + DigitRun(s[1..]) else 0
  }

  /** Reads the indentation and the hit count back from the start of a printed line. */
  function ParseHeader(text: string): Option<(nat, nat)> {
    var n := LeadingSpaces(text);
    var rest := text[n..];
    if |rest| == 0 || rest[0] != '[' then None
    else
      var k := DigitRun(rest[1..]);
      if k == 0 || k + 1 >= |rest| || rest[k + 1] != ']' then None
      else Some((n, DigitsValue(rest[1..k + 1])))
  }

  /** A printed line gives back its indentation and its hits, so the printed tree can be read
      back: the depth is the indentation over `INDENT_STEP`. */
  lemma {:induction false} RenderLineRoundTrip<E>(line: Line<E>, show: E -> string, resolve: Addr -> seq<string>)
    ensures ParseHeader(RenderLine(line, show, resolve)) == Some((INDENT_STEP * line.depth, line.hits))
  {
    var text := RenderLine(line, show, resolve);
    var indent := INDENT_STEP * line.depth;
    var digits := NatToString(line.hits);
    var n := LeadingSpaces(text);
    assert n == indent;
    var rest := text[n..];
    assert rest[0] == '[';
    assert forall i | 0 <= i < |digits| :: rest[1..][i] == digits[i];
    assert rest[1..][|digits|] == ']';
    assert forall i | 0 <= i < |digits| :: IsDigit(rest[1..][i]);
    assert !IsDigit(rest[1..][|digits|]);
    var k := DigitRun(rest[1..]);
    assert k == |digits|;
    assert rest[1..k + 1] == digits;
    NatToStringRoundTrip(line.hits);
  }

  /** Each of `ls` preceded by `prefix`. */
  function Indented(ls: seq<string>, prefix: string): (r: seq<string>)
    ensures |r| == |ls|
    ensures forall i | 0 <= i < |ls| :: r[i] == prefix + ls[i]
  {
    seq(|ls|, i requires 0 <= i < |ls| => prefix + ls[i])
  }

  lemma JoinPrefixed(pre: string, x: string, rest: seq<string>, sep: string)
    ensures Join([pre + x] + rest, sep) == pre + Join([x] + rest, sep)
  {
    if |rest| > 0 {
      assert ([pre + x] + rest)[1..] == rest;
      assert ([x] + rest)[1..] == rest;
    }
  }

  /** Joining with a newline followed by `w` is joining with a newline the lines after the first
      each preceded by `w`. */
  lemma {:induction false} JoinIndented(ls: seq<string>, w: string)
    requires |ls| >= 1
    ensures Join(ls, "\n" + w) == Join([ls[0]] + Indented(ls[1..], w), "\n")
    decreases |ls|
  {
    if |ls| > 1 {
      JoinIndented(ls[1..], w);
      var ind := Indented(ls[1..], w);
      assert ls[1..][0] == ls[1];
      assert Indented(ls[1..][1..], w) == ind[1..];
      assert ind == [w + ls[1]] + ind[1..];
      JoinPrefixed(w, ls[1], ind[1..], "\n");
      assert ([ls[0]] + ind)[1..] == ind;
    }
  }

  /** A frame that resolves to several lines prints each on a line of its own, every line after
      the first indented to the column where the first began: past the indentation, the hits in
      brackets and one space. */
  lemma FrameLines<E>(line: Line<E>, show: E -> string, resolve: Addr -> seq<string>)
    requires line.entry.FrameEntry? && |resolve(line.entry.addr)| > 0
    requires forall i | 0 <= i < |resolve(line.entry.addr)| :: '\n' !in resolve(line.entry.addr)[i]
    ensures var text := RenderLine(line, show, resolve);
            var ls := resolve(line.entry.addr);
            var indent := INDENT_STEP * line.depth;
            var column := indent + |HitsText(line.hits)| + 1;
            Split(text[..|text| - 1], '\n')
              == [Spaces(indent) + HitsText(line.hits) + " " + ls[0]] + Indented(ls[1..], Spaces(column))
  {
    var ls := resolve(line.entry.addr);
    var indent := INDENT_STEP * line.depth;
    var hitsText := HitsText(line.hits);
    var w := Spaces(indent + |hitsText| + 1);
    var pre := Spaces(indent) + hitsText + " ";
    var flat := RenderLine(line, show, resolve);
    FrameText(line, show, resolve);
    assert flat[..|flat| - 1] == pre + Join(ls, "\n" + w);
    JoinIndented(ls, w);
    var ind := Indented(ls[1..], w);
    JoinPrefixed(pre, ls[0], ind, "\n");
    var parts := [pre + ls[0]] + ind;
    assert flat[..|flat| - 1] == Join(parts, ['\n']);
    HeaderHasNoNewline(indent, line.hits);
    IndentedHasNoNewline(ls[1..], w);
    assert forall i | 0 <= i < |parts| :: '\n' !in parts[i] by {
      assert parts[0] == pre + ls[0];
      assert forall i | 1 <= i < |parts| :: parts[i] == ind[i - 1];
    }
    JoinSplit(parts, '\n');
  }

  /** The printed frame line without its final newline: the header, then the resolved lines. */
  lemma FrameText<E>(line: Line<E>, show: E -> string, resolve: Addr -> seq<string>)
    requires line.entry.FrameEntry?
    ensures var text := RenderLine(line, show, resolve);
            var indent := INDENT_STEP * line.depth;
            var w := Spaces(indent + |HitsText(line.hits)| + 1);
            |text| > 0 && text[..|text| - 1] == Spaces(indent) + HitsText(line.hits) + " " + Join(resolve(line.entry.addr), "\n" + w)
  {
    var text := RenderLine(line, show, resolve);
    var head := Spaces(INDENT_STEP * line.depth) + HitsText(line.hits) + " "
                + Join(resolve(line.entry.addr), "\n" + Spaces(INDENT_STEP * line.depth + |HitsText(line.hits)| + 1));
    assert text == head + "\n";
    assert text[..|text| - 1] == head;
  }

  lemma HeaderHasNoNewline(indent: nat, hits: nat)
    ensures '\n' !in Spaces(indent) + HitsText(hits) + " "
  {
    var digits := NatToString(hits);
    assert forall i | 0 <= i < |digits| :: digits[i] != '\n';
    assert '\n' !in digits;
  }

  lemma IndentedHasNoNewline(ls: seq<string>, w: string)
    requires '\n' !in w
    requires forall i | 0 <= i < |ls| :: '\n' !in ls[i]
    ensures forall i | 0 <= i < |ls| :: '\n' !in Indented(ls, w)[i]
  {
    forall i | 0 <= i < |ls|
      ensures '\n' !in Indented(ls, w)[i]
    {
      assert Indented(ls, w)[i] == w + ls[i];
    }
  }

  /** The report of one profiler: one printed line per node, in the order of `Lines`. */
  function Report<E(==)>(counts: Counts<Record<E>>, keys: seq<Record<E>>, show: E -> string,
                         resolve: Addr -> seq<string>): (out: seq<string>)
    requires forall r | r in keys :: r in counts
  {
    RenderLines(Lines(ReportTree(counts, keys), 0), show, resolve)
  }

  function RenderLines<E>(lines: seq<Line<E>>, show: E -> string, resolve: Addr -> seq<string>): (out: seq<string>)
    ensures |out| == |lines|
    ensures forall i | 0 <= i < |lines| :: out[i] == RenderLine(lines[i], show, resolve)
  {
    if |lines| == 0 then [] else [RenderLine(lines[0], show, resolve)] + RenderLines(lines[1..], show, resolve)
  }

  /** An empty map prints nothing; any recorded hit prints at least one line, at depth 0. */
  lemma ReportEmpty<E>(counts: Counts<Record<E>>, keys: seq<Record<E>>, show: E -> string,
                           resolve: Addr -> seq<string>)
    requires Enumerates(counts, keys)
    ensures Report(counts, keys, show, resolve) == [] <==> counts == map[]
  {
    var tree := ReportTree(counts, keys);
    if counts != map[] {
      var r :| r in counts;
      assert r in keys;
      ReportTreePaths(counts, keys, [EventEntry(r.event)]);
      assert Entries(r)[..1] == [EventEntry(r.event)];
      assert HasPath(tree, [EventEntry(r.event)]);
    } else {
      assert SortedBuckets(counts, keys, 0) == [];
    }
  }
}
