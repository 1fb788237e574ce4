/** The profiler of one event kind and the facade holding the two kinds
    (kotlin-native/runtime/src/main/cpp/profiler/Profiler.hpp). Every thread counts its hits in a
    buffer of its own; publishing merges the buffer into the profiler's aggregate and empties it;
    the aggregate is printed as a report when the profiler goes away. The mutex is not modelled:
    each publish and each report is one atomic step of the model. */
module Profiling {
  import opened EventRecords
  import opened EventCounts
  import ProfileReporter

  /** The static traits of an event kind: whether it is profiled at all, and how many frames of
      backtrace its records keep. */
  datatype Traits = Traits(enabled: bool, backtraceDepth: nat)

  /** `Profiler::ThreadData`: the counts of one thread that are not yet published. */
  datatype ThreadData<E(==)> = ThreadData(local: Counts<Record<E>>)

  /** `Profiler`: the counts published so far. */
  datatype Profiler<E(==)> = Profiler(aggregated: Counts<Record<E>>)

  function Min(a: nat, b: nat): nat {
    if a <= b then a else b
  }

  /** `Backtrace::current(skip, depth)`: the frames of the current call stack (innermost first)
      after the `skip` innermost ones, at most `depth` of them, fewer on a shallower stack. */
  function Capture(stack: seq<Addr>, skip: nat, depth: nat): (bt: seq<Addr>)
    ensures |bt| <= depth
    ensures |bt| == if |stack| <= skip then 0 else Min(depth, |stack| - skip)
    ensures forall i | 0 <= i < |bt| :: bt[i] == stack[skip + i]
  {
    if |stack| <= skip then [] else stack[skip..skip + Min(depth, |stack| - skip)]
  }

  /** `ThreadData::hitImpl`: one more hit of the event with the backtrace of the caller (the
      frame of `hitImpl` itself is skipped), counted in the thread's buffer only. The source
      asserts that the kind is enabled. */
  function HitImpl<E(==)>(traits: Traits, td: ThreadData<E>, event: E, stack: seq<Addr>, skipFrames: nat := 0): (td': ThreadData<E>)
    requires traits.enabled
    ensures var rec := Record(event, Capture(stack, skipFrames + 1, traits.backtraceDepth));
            && td'.local.Keys == td.local.Keys + {rec}
            && Get(td'.local, rec) == Get(td.local, rec) + 1
            && (forall k | k in td.local && k != rec :: td'.local[k] == td.local[k])
            && Total(td'.local) == Total(td.local) + 1
  {
    ThreadData(Hit(td.local, Record(event, Capture(stack, skipFrames + 1, traits.backtraceDepth))))
  }

  /** The `ProfilerHit` macro: when the kind is enabled, exactly one hit of the record `hitImpl`
      captures (the event, with the caller's backtrace after `skipFrames` more frames) is added;
      otherwise nothing changes. */
  function ProfilerHit<E(==)>(traits: Traits, td: ThreadData<E>, event: E, stack: seq<Addr>, skipFrames: nat := 0): (td': ThreadData<E>)
    ensures !traits.enabled ==> td' == td
    ensures traits.enabled ==>
              var rec := Record(event, Capture(stack, skipFrames + 1, traits.backtraceDepth));
              && td'.local.Keys == td.local.Keys + {rec}
              && Get(td'.local, rec) == Get(td.local, rec) + 1
              && (forall k | k in td.local && k != rec :: td'.local[k] == td.local[k])
    ensures traits.enabled ==> Total(td'.local) == Total(td.local) + 1
  {
    if traits.enabled then HitImpl(traits, td, event, stack, skipFrames) else td
  }

  /** `ThreadData::publish` (and the thread data's destructor, which calls it): when the kind
      is enabled the buffer is merged into the aggregate and emptied; otherwise nothing happens.
      No hit is lost or counted twice either way. */
  function Publish<E(==)>(traits: Traits, td: ThreadData<E>, p: Profiler<E>): (r: (ThreadData<E>, Profiler<E>))
    ensures Total(r.0.local) + Total(r.1.aggregated) == Total(td.local) + Total(p.aggregated)
    ensures traits.enabled ==> r.0.local == map[]
    ensures traits.enabled ==> r.1.aggregated.Keys == p.aggregated.Keys + td.local.Keys
    ensures traits.enabled ==> forall k | k in r.1.aggregated :: r.1.aggregated[k] == Get(p.aggregated, k) + Get(td.local, k)
    ensures !traits.enabled ==> r == (td, p)
  {
    if traits.enabled then
      AggregateTotal(p.aggregated, td.local);
      TotalEmpty<Record<E>>();
      (ThreadData(map[]), Profiler(Aggregate(p.aggregated, td.local)))
    else (td, p)
  }

  lemma TotalEmpty<K>()
    ensures Total<K>(map[]) == 0
  {
    var m: Counts<K> := map[];
    assert m.Keys == {};
  }

  /** Publishing again right away changes nothing: the buffer is already empty. */
  lemma PublishIdempotent<E>(traits: Traits, td: ThreadData<E>, p: Profiler<E>)
    ensures var once := Publish(traits, td, p);
            Publish(traits, once.0, once.1) == once
  {
    if traits.enabled {
      AggregateEmpty(Publish(traits, td, p).1.aggregated);
    }
  }

  /** Two threads may publish in either order: the aggregate ends up the same. */
  lemma PublishCommutes<E>(traits: Traits, a: ThreadData<E>, b: ThreadData<E>, p: Profiler<E>)
    ensures Publish(traits, b, Publish(traits, a, p).1).1 == Publish(traits, a, Publish(traits, b, p).1).1
  {
    if traits.enabled {
      AggregateCommutes(p.aggregated, a.local, b.local);
    }
  }

  /** The thread data of a thread that records the hits `rs`, in order. */
  function RecordAll<E(==)>(td: ThreadData<E>, rs: seq<Record<E>>): (td': ThreadData<E>)
    ensures Total(td'.local) == Total(td.local) + |rs|
    decreases |rs|
  {
    if |rs| == 0 then td else RecordAll(ThreadData(Hit(td.local, rs[0])), rs[1..])
  }

  /** The threads publish one after the other, in the order of `tds`. */
  function PublishAll<E(==)>(traits: Traits, p: Profiler<E>, tds: seq<ThreadData<E>>): (p': Profiler<E>)
    ensures traits.enabled ==> Total(p'.aggregated) == Total(p.aggregated) + TotalOf(tds)
    ensures !traits.enabled ==> p' == p
    decreases |tds|
  {
    if |tds| == 0 then p else PublishAll(traits, Publish(traits, tds[0], p).1, tds[1..])
  }

  /** The hits waiting in the buffers `tds`. */
  ghost function TotalOf<E>(tds: seq<ThreadData<E>>): nat {
    if |tds| == 0 then 0 else Total(tds[0].local) + TotalOf(tds[1..])
  }

  /** The hits of `k` waiting in the buffers `tds`. */
  function CountOf<E(==)>(tds: seq<ThreadData<E>>, k: Record<E>): nat {
    if |tds| == 0 then 0 else Get(tds[0].local, k) + CountOf(tds[1..], k)
  }

  /** After every thread has published, each record's count is its previous count plus its count
      in every buffer: a sum that does not depend on the order in which the threads published. */
  lemma {:induction false} PublishAllPointwise<E>(traits: Traits, p: Profiler<E>, tds: seq<ThreadData<E>>, k: Record<E>)
    requires traits.enabled
    ensures Get(PublishAll(traits, p, tds).aggregated, k) == Get(p.aggregated, k) + CountOf(tds, k)
    decreases |tds|
  {
    if |tds| > 0 {
      var p1 := Publish(traits, tds[0], p).1;
      PublishAllPointwise(traits, p1, tds[1..], k);
    }
  }

  /** The buffers of threads that start empty and record the hits `runs[i]`. */
  function Threads<E(==)>(runs: seq<seq<Record<E>>>): (tds: seq<ThreadData<E>>)
    ensures |tds| == |runs|
    ensures TotalOf(tds) == HitCount(runs)
  {
    if |runs| == 0 then []
    else
      TotalEmpty<Record<E>>();
      [RecordAll(ThreadData(map[]), runs[0])] + Threads(runs[1..])
  }

  ghost function HitCount<E>(runs: seq<seq<Record<E>>>): nat {
    if |runs| == 0 then 0 else |runs[0]| + HitCount(runs[1..])
  }

  /** Conservation: when every thread has published, the aggregate holds exactly the hits the
      threads recorded, no more and no fewer. */
  lemma Conservation<E>(traits: Traits, runs: seq<seq<Record<E>>>)
    requires traits.enabled
    ensures Total(PublishAll(traits, Profiler(map[]), Threads(runs)).aggregated) == HitCount(runs)
  {
    TotalEmpty<Record<E>>();
  }

  /** `Profiler::report` (and the profiler's destructor, which calls it): the report of the
      aggregate, or nothing for a disabled kind. `keys` is the iteration order of the map. */
  function Report<E(==)>(traits: Traits, p: Profiler<E>, keys: seq<Record<E>>, show: E -> string,
                         resolve: Addr -> seq<string>): (out: seq<string>)
    requires forall r | r in keys :: r in p.aggregated
    ensures !traits.enabled ==> out == []
  {
    if traits.enabled then ProfileReporter.Report(p.aggregated, keys, show, resolve) else []
  }

  /** An enabled profiler prints something exactly when some record has been published to it. */
  lemma ReportNothingIffEmpty<E>(traits: Traits, p: Profiler<E>, keys: seq<Record<E>>, show: E -> string,
                                 resolve: Addr -> seq<string>)
    requires traits.enabled
    requires ProfileReporter.Enumerates(p.aggregated, keys)
    ensures Report(traits, p, keys, show, resolve) == [] <==> p.aggregated == map[]
  {
    ProfileReporter.ReportEmpty(p.aggregated, keys, show, resolve);
  }

  /** A disabled kind records nothing, whatever is hit, and so never reports anything. */
  lemma DisabledRecordsNothing<E>(traits: Traits, td: ThreadData<E>, events: seq<E>, stack: seq<Addr>)
    requires !traits.enabled
    ensures HitEach(traits, td, events, stack) == td
  {
  }

  /** The `ProfilerHit` call sites of one thread, one per event, all from the same stack. */
  function HitEach<E(==)>(traits: Traits, td: ThreadData<E>, events: seq<E>, stack: seq<Addr>): (td': ThreadData<E>)
    ensures traits.enabled ==> Total(td'.local) == Total(td.local) + |events|
    decreases |events|
  {
    if |events| == 0 then td else HitEach(traits, ProfilerHit(traits, td, events[0], stack), events[1..], stack)
  }

  // ---------------------------------------------------------------------------------------------
  // The facade: `Profilers`, one profiler per event kind. The safepoint kind's traits are not part
  // of this model, so the facade is generic in both event types.

  datatype Profilers<A(==), S(==)> = Profilers(allocation: Profiler<A>, safePoint: Profiler<S>)

  datatype ProfilersThreadData<A(==), S(==)> = ProfilersThreadData(allocation: ThreadData<A>, safePoint: ThreadData<S>)

  /** `Profilers::ThreadData::publish`: each kind publishes its own buffer into its own profiler. */
  function PublishKinds<A(==), S(==)>(allocationTraits: Traits, safePointTraits: Traits, td: ProfilersThreadData<A, S>,
                              ps: Profilers<A, S>): (r: (ProfilersThreadData<A, S>, Profilers<A, S>))
    ensures Total(r.0.allocation.local) + Total(r.1.allocation.aggregated)
         == Total(td.allocation.local) + Total(ps.allocation.aggregated)
    ensures Total(r.0.safePoint.local) + Total(r.1.safePoint.aggregated)
         == Total(td.safePoint.local) + Total(ps.safePoint.aggregated)
    ensures allocationTraits.enabled ==> r.0.allocation.local == map[]
    ensures safePointTraits.enabled ==> r.0.safePoint.local == map[]
    ensures !allocationTraits.enabled ==> r.1.allocation == ps.allocation && r.0.allocation == td.allocation
    ensures !safePointTraits.enabled ==> r.1.safePoint == ps.safePoint && r.0.safePoint == td.safePoint
  {
    var (a, pa) := Publish(allocationTraits, td.allocation, ps.allocation);
    var (s, pse) := Publish(safePointTraits, td.safePoint, ps.safePoint);
    (ProfilersThreadData(a, s), Profilers(pa, pse))
  }

  /** `Profilers::report`: the allocation report, then the safepoint report. */
  function ReportKinds<A(==), S(==)>(allocationTraits: Traits, safePointTraits: Traits, ps: Profilers<A, S>,
                                     allocationKeys: seq<Record<A>>, safePointKeys: seq<Record<S>>,
                                     showAllocation: A -> string, showSafePoint: S -> string,
                                     resolve: Addr -> seq<string>): (out: seq<string>)
    requires forall r | r in allocationKeys :: r in ps.allocation.aggregated
    requires forall r | r in safePointKeys :: r in ps.safePoint.aggregated
    ensures !allocationTraits.enabled && !safePointTraits.enabled ==> out == []
    ensures !allocationTraits.enabled ==> out == Report(safePointTraits, ps.safePoint, safePointKeys, showSafePoint, resolve)
    ensures !safePointTraits.enabled ==> out == Report(allocationTraits, ps.allocation, allocationKeys, showAllocation, resolve)
    ensures var first := Report(allocationTraits, ps.allocation, allocationKeys, showAllocation, resolve);
            |first| <= |out| && out[..|first|] == first
              && out[|first|..] == Report(safePointTraits, ps.safePoint, safePointKeys, showSafePoint, resolve)
  {
    Report(allocationTraits, ps.allocation, allocationKeys, showAllocation, resolve)
      + Report(safePointTraits, ps.safePoint, safePointKeys, showSafePoint, resolve)
  }
}
