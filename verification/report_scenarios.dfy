/** The report for small inputs worked out in full: a lone record prints as a chain of its
    entries, and two records with different events print as two sibling chains, the heavier
    first and, on a tie, the one the map enumerates first. The worked examples follow the
    allocation profiler from its hits to its printed lines. */
module ReportScenarios {
  import opened EventRecords
  import opened EventCounts
  import opened ProfileReporter
  import opened ProfilerEvents
  import Profiling

  /** The nodes of a single path: each entry the only child of the one before, all with `hits`. */
  function Chain<E>(path: Path<E>, hits: nat): seq<Node<E>>
    decreases |path|
  {
    if |path| == 0 then [] else [Node(path[0], hits, Chain(path[1..], hits))]
  }

  lemma SingleBuckets<E>(counts: Counts<Record<E>>, r: Record<E>, level: nat)
    requires r in counts && level < |Entries(r)|
    ensures SortedBuckets(counts, [r], level) == [Bucket(Entries(r)[level], counts[r])]
  {
    var e := Entries(r)[level];
    assert [r][..0] == [];
    assert EntriesOnLevel([r], level) == [e];
    assert RecordsOfEntry([r], level, e) == [r];
    assert HitsOf(counts, [r]) == counts[r];
    assert Buckets(counts, [r], level, [e]) == [Bucket(e, counts[r])];
  }

  /** One record alone is printed as the chain of its entries from `level` on. */
  lemma {:induction false} SingleLevel<E>(counts: Counts<Record<E>>, r: Record<E>, level: nat, maxLen: nat)
    requires r in counts && level < |Entries(r)| <= maxLen
    ensures Level(counts, [r], level, maxLen) == Chain(Entries(r)[level..], counts[r])
    decreases maxLen - level
  {
    var e := Entries(r)[level];
    var b := Bucket(e, counts[r]);
    SingleBuckets(counts, r, level);
    assert Level(counts, [r], level, maxLen) == [NodeOf(counts, [r], level, maxLen, b)];
    assert RecordsOfEntry([r], level, e) == [r];
    var tail := Entries(r)[level..][1..];
    assert tail == Entries(r)[level + 1..];
    if level + 1 < |Entries(r)| {
      assert Deeper([r], level) == [r];
      SingleLevel(counts, r, level + 1, maxLen);
    } else {
      assert Deeper([r], level) == [];
      assert tail == [];
    }
  }

  /** A map with one record prints one chain, every line carrying the record's count. */
  lemma SingleRecordTree<E>(r: Record<E>, n: nat)
    ensures ReportTree(map[r := n], [r]) == Chain(Entries(r), n)
  {
    assert MaxLen([r]) == |Entries(r)|;
    SingleLevel(map[r := n], r, 0, |Entries(r)|);
    assert Entries(r)[0..] == Entries(r);
  }

  lemma TwoEntries<E>(x: Record<E>, y: Record<E>, level: nat)
    requires level < |Entries(x)| && level < |Entries(y)|
    requires Entries(x)[level] != Entries(y)[level]
    ensures EntriesOnLevel([x, y], level) == [Entries(x)[level], Entries(y)[level]]
  {
    assert [x, y][..1] == [x];
    assert [x][..0] == [];
    assert EntriesOnLevel([x], level) == [Entries(x)[level]];
  }

  lemma TwoGroups<E>(x: Record<E>, y: Record<E>, level: nat)
    requires level < |Entries(x)| && level < |Entries(y)|
    requires Entries(x)[level] != Entries(y)[level]
    ensures RecordsOfEntry([x, y], level, Entries(x)[level]) == [x]
    ensures RecordsOfEntry([x, y], level, Entries(y)[level]) == [y]
  {
    assert [x, y][1..] == [y];
    assert [y][1..] == [];
    assert RecordsOfEntry([y], level, Entries(x)[level]) == [];
    assert RecordsOfEntry([y], level, Entries(y)[level]) == [y];
  }

  lemma SortTwo<E>(a: Bucket<E>, b: Bucket<E>)
    ensures SortByHits([a, b]) == if b.hits > a.hits then [b, a] else [a, b]
  {
    assert [a, b][1..] == [b];
    assert [b][1..] == [];
    assert SortByHits([b]) == [b];
  }

  lemma TwoBuckets<E>(counts: Counts<Record<E>>, x: Record<E>, y: Record<E>, level: nat)
    requires x in counts && y in counts
    requires level < |Entries(x)| && level < |Entries(y)|
    requires Entries(x)[level] != Entries(y)[level]
    ensures var bucketX := Bucket(Entries(x)[level], counts[x]);
            var bucketY := Bucket(Entries(y)[level], counts[y]);
            SortedBuckets(counts, [x, y], level) == if counts[y] > counts[x] then [bucketY, bucketX] else [bucketX, bucketY]
  {
    var ex, ey := Entries(x)[level], Entries(y)[level];
    TwoEntries(x, y, level);
    TwoGroups(x, y, level);
    assert HitsOf(counts, [x]) == counts[x];
    assert HitsOf(counts, [y]) == counts[y];
    var bucketX := Bucket(ex, counts[x]);
    var bucketY := Bucket(ey, counts[y]);
    var bs := Buckets(counts, [x, y], level, [ex, ey]);
    assert bs == [bucketX, bucketY];
    SortTwo(bucketX, bucketY);
  }

  /** Two records whose entries at `level` differ print as two chains, the one with more hits
      first; on equal hits, the one enumerated first comes first. */
  lemma TwoLevel<E>(counts: Counts<Record<E>>, x: Record<E>, y: Record<E>, level: nat, maxLen: nat)
    requires x in counts && y in counts
    requires level < |Entries(x)| <= maxLen && level < |Entries(y)| <= maxLen
    requires Entries(x)[level] != Entries(y)[level]
    ensures var nx := Node(Entries(x)[level], counts[x], Chain(Entries(x)[level + 1..], counts[x]));
            var ny := Node(Entries(y)[level], counts[y], Chain(Entries(y)[level + 1..], counts[y]));
            Level(counts, [x, y], level, maxLen) == if counts[y] > counts[x] then [ny, nx] else [nx, ny]
  {
    var bucketX := Bucket(Entries(x)[level], counts[x]);
    var bucketY := Bucket(Entries(y)[level], counts[y]);
    assert LevelInput(counts, [x, y], level, maxLen);
    TwoBuckets(counts, x, y, level);
    TwoGroups(x, y, level);
    ChildOf(counts, [x, y], x, level, maxLen, bucketX);
    ChildOf(counts, [x, y], y, level, maxLen, bucketY);
    var sorted := SortedBuckets(counts, [x, y], level);
    TwoChildren(counts, [x, y], level, maxLen, sorted);
  }

  lemma TwoChildren<E>(counts: Counts<Record<E>>, records: seq<Record<E>>, level: nat, maxLen: nat, sorted: seq<Bucket<E>>)
    requires LevelInput(counts, records, level, maxLen)
    requires |sorted| == 2
    ensures Children(counts, records, level, maxLen, sorted)
         == [NodeOf(counts, records, level, maxLen, sorted[0]), NodeOf(counts, records, level, maxLen, sorted[1])]
  {
    var nodes := Children(counts, records, level, maxLen, sorted);
    assert nodes[0] == NodeOf(counts, records, level, maxLen, sorted[0]);
    assert nodes[1] == NodeOf(counts, records, level, maxLen, sorted[1]);
  }

  /** The node of a bucket whose group is the lone record `r` continues as `r`'s chain. */
  lemma ChildOf<E>(counts: Counts<Record<E>>, records: seq<Record<E>>, r: Record<E>, level: nat, maxLen: nat,
                   b: Bucket<E>)
    requires LevelInput(counts, records, level, maxLen)
    requires r in counts && level < |Entries(r)| <= maxLen
    requires b.entry == Entries(r)[level]
    requires RecordsOfEntry(records, level, b.entry) == [r]
    ensures NodeOf(counts, records, level, maxLen, b) == Node(b.entry, b.hits, Chain(Entries(r)[level + 1..], counts[r]))
  {
    if level + 1 < |Entries(r)| {
      assert Deeper([r], level) == [r];
      SingleLevel(counts, r, level + 1, maxLen);
    } else {
      assert Deeper([r], level) == [];
      assert Entries(r)[level + 1..] == [];
    }
  }

  // ---------------------------------------------------------------------------------------------
  // Worked examples with allocation events

  const TYPE_A: TypeRef := 1
  const TYPE_B: TypeRef := 2
  const F1: Addr := 10
  const F2: Addr := 20
  const F3: Addr := 30
  /** The innermost frame of the scenario's stack: `hitImpl`'s own frame, which the capture
      skips, so a backtrace starts at the frame after it. */
  const CALL_SITE: Addr := 5

  /** A map with two records whose events differ prints two chains, ordered as `TwoLevel` says. */
  lemma PairTree<E>(counts: Counts<Record<E>>, x: Record<E>, y: Record<E>)
    requires x in counts && y in counts && x.event != y.event
    ensures var nx := Node(EventEntry(x.event), counts[x], Chain(Entries(x)[1..], counts[x]));
            var ny := Node(EventEntry(y.event), counts[y], Chain(Entries(y)[1..], counts[y]));
            ReportTree(counts, [x, y]) == if counts[y] > counts[x] then [ny, nx] else [nx, ny]
  {
    var maxLen := MaxLen([x, y]);
    TwoLevel(counts, x, y, 0, maxLen);
  }

  lemma ChainOne<E>(e: ContextEntry<E>, n: nat)
    ensures Chain([e], n) == [Node(e, n, [])]
  {
    assert [e][1..] == [];
  }

  /** Two threads allocate the same type from the same stack and both publish: the aggregate
      counts the record twice. The third frame of the stack is cut off by the backtrace depth. */
  lemma TwoThreadsOneStack()
    ensures var traits := Profiling.Traits(true, CONTEXT_BACKTRACE_DEPTH);
            var td := Profiling.HitImpl(traits, Profiling.ThreadData(map[]), Allocation(TYPE_A), [CALL_SITE, F1, F2, F3]);
            Profiling.PublishAll(traits, Profiling.Profiler(map[]), [td, td]).aggregated
              == map[Record(Allocation(TYPE_A), [F1, F2]) := 2]
  {
    var traits := Profiling.Traits(true, CONTEXT_BACKTRACE_DEPTH);
    var stack := [CALL_SITE, F1, F2, F3];
    var rec := Record(Allocation(TYPE_A), [F1, F2]);
    assert Profiling.Capture(stack, 1, CONTEXT_BACKTRACE_DEPTH) == [F1, F2];
    var td := Profiling.HitImpl(traits, Profiling.ThreadData(map[]), Allocation(TYPE_A), stack);
    assert td.local == map[rec := 1];
    var p1 := Profiling.Publish(traits, td, Profiling.Profiler(map[])).1;
    assert p1.aggregated == map[rec := 1];
    var p2 := Profiling.Publish(traits, td, p1).1;
    assert p2.aggregated == map[rec := 2];
    assert [td, td][1..] == [td];
    assert Profiling.PublishAll(traits, p2, []) == p2;
  }

  /** The report of that aggregate: the event and its two frames nested one below the other,
      each line with 2 hits. */
  lemma TwoThreadsOneStackLines()
    ensures var rec := Record(Allocation(TYPE_A), [F1, F2]);
            Lines(ReportTree(map[rec := 2], [rec]), 0)
              == [Line(0, 2, EventEntry(Allocation(TYPE_A))), Line(1, 2, FrameEntry(F1)), Line(2, 2, FrameEntry(F2))]
  {
    var rec := Record(Allocation(TYPE_A), [F1, F2]);
    SingleRecordTree(rec, 2);
    var path := Entries(rec);
    assert path == [EventEntry(Allocation(TYPE_A)), FrameEntry(F1), FrameEntry(F2)];
    var leaf := Node(FrameEntry(F2), 2, []);
    var mid := Node(FrameEntry(F1), 2, [leaf]);
    var top := Node(EventEntry(Allocation(TYPE_A)), 2, [mid]);
    ChainOne<Allocation>(FrameEntry(F2), 2);
    assert path[1..] == [FrameEntry(F1), FrameEntry(F2)];
    assert path[1..][1..] == [FrameEntry(F2)];
    assert Chain(path, 2) == [top];
    assert Lines([leaf], 2) == [Line(2, 2, FrameEntry(F2))];
    assert Lines([mid], 1) == [Line(1, 2, FrameEntry(F1)), Line(2, 2, FrameEntry(F2))];
  }

  /** Two types allocated once each from the same frame tie: both events are printed with one
      hit and their frame below, in the order the map enumerates them. */
  lemma TieKeepsEnumerationOrder()
    ensures var ra := Record(Allocation(TYPE_A), [F1]);
            var rb := Record(Allocation(TYPE_B), [F1]);
            var counts := map[ra := 1, rb := 1];
            var na := Node(EventEntry(Allocation(TYPE_A)), 1, [Node(FrameEntry(F1), 1, [])]);
            var nb := Node(EventEntry(Allocation(TYPE_B)), 1, [Node(FrameEntry(F1), 1, [])]);
            && ReportTree(counts, [ra, rb]) == [na, nb]
            && ReportTree(counts, [rb, ra]) == [nb, na]
  {
    var ra := Record(Allocation(TYPE_A), [F1]);
    var rb := Record(Allocation(TYPE_B), [F1]);
    var counts := map[ra := 1, rb := 1];
    assert Entries(ra)[1..] == [FrameEntry(F1)] && Entries(rb)[1..] == [FrameEntry(F1)];
    ChainOne<Allocation>(FrameEntry(F1), 1);
    PairTree(counts, ra, rb);
    PairTree(counts, rb, ra);
  }

  /** The heavier type is printed first whatever order the map enumerates the records in. */
  lemma HeavierFirst()
    ensures var ra := Record(Allocation(TYPE_A), [F1]);
            var rb := Record(Allocation(TYPE_B), [F1]);
            var counts := map[ra := 5, rb := 1];
            var na := Node(EventEntry(Allocation(TYPE_A)), 5, [Node(FrameEntry(F1), 5, [])]);
            var nb := Node(EventEntry(Allocation(TYPE_B)), 1, [Node(FrameEntry(F1), 1, [])]);
            && ReportTree(counts, [ra, rb]) == [na, nb]
            && ReportTree(counts, [rb, ra]) == [na, nb]
  {
    var ra := Record(Allocation(TYPE_A), [F1]);
    var rb := Record(Allocation(TYPE_B), [F1]);
    var counts := map[ra := 5, rb := 1];
    assert Entries(ra)[1..] == [FrameEntry(F1)] && Entries(rb)[1..] == [FrameEntry(F1)];
    ChainOne<Allocation>(FrameEntry(F1), 1);
    ChainOne<Allocation>(FrameEntry(F1), 5);
    PairTree(counts, ra, rb);
    PairTree(counts, rb, ra);
  }

  /** A profiler nothing was published to prints no lines. */
  lemma EmptyPrintsNothing(show: Allocation -> string, resolve: Addr -> seq<string>)
    ensures Profiling.Report(Profiling.Traits(true, CONTEXT_BACKTRACE_DEPTH), Profiling.Profiler(map[]), [], show, resolve) == []
  {
    ReportEmpty(map[], [], show, resolve);
  }
}
