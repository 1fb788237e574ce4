/** The aggregation key of the profiler: an event together with the backtrace captured when it
    happened (kotlin-native/runtime/src/main/cpp/profiler/Profiler.hpp, `EventRecord`). */
module EventRecords {
  import opened Wrappers

  /** A frame address (`void*`) of a captured backtrace, innermost frame first. */
  type Addr = nat

  /** An event of kind `E` and the backtrace captured with it. */
  datatype Record<E> = Record(event: E, backtrace: seq<Addr>)

  /** One step of a record's path in the report tree: the event itself, or one frame. */
  datatype ContextEntry<E> = EventEntry(event: E) | FrameEntry(addr: Addr)

  /** `EventRecord::operator==`: both the events and the backtraces agree. It coincides with
      value equality, which is what makes records usable as hash-map keys. */
  function SameRecord<E(==)>(a: Record<E>, b: Record<E>): (same: bool)
    ensures same <==> a == b
  {
    a.event == b.event && a.backtrace == b.backtrace
  }

  /** `EventRecord::entries()`: the event first, then every frame in capture order. */
  function Entries<E>(r: Record<E>): (path: seq<ContextEntry<E>>)
    ensures |path| == 1 + |r.backtrace|
    ensures path[0] == EventEntry(r.event)
    ensures forall i :: 0 <= i < |r.backtrace| ==> path[i + 1] == FrameEntry(r.backtrace[i])
  {
    [EventEntry(r.event)] + seq(|r.backtrace|, i requires 0 <= i < |r.backtrace| => FrameEntry(r.backtrace[i]))
  }

  /** The frames of a path tail, if every entry of it is a frame. */
  function FramesOf<E>(tail: seq<ContextEntry<E>>): Option<seq<Addr>> {
    if |tail| == 0 then Some([])
    else if tail[0].EventEntry? then None
    else
      match FramesOf(tail[1..])
      case None => None
      case Some(rest) => Some([tail[0].addr] + rest)
  }

  /** Reads a record back from its path: the inverse of `Entries`. */
  function RecordOf<E>(path: seq<ContextEntry<E>>): Option<Record<E>> {
    if |path| == 0 || !path[0].EventEntry? then None
    else
      match FramesOf(path[1..])
      case None => None
      case Some(frames) => Some(Record(path[0].event, frames))
  }

  lemma {:induction false} FramesOfFrames<E>(frames: seq<Addr>, tail: seq<ContextEntry<E>>)
    requires |tail| == |frames|
    requires forall i :: 0 <= i < |frames| ==> tail[i] == FrameEntry(frames[i])
    ensures FramesOf(tail) == Some(frames)
    decreases |frames|
  {
    if |frames| > 0 {
      FramesOfFrames(frames[1..], tail[1..]);
      assert [frames[0]] + frames[1..] == frames;
    }
  }

  /** The path of a record determines the record: nothing is lost by flattening. */
  lemma EntriesRoundTrip<E>(r: Record<E>)
    ensures RecordOf(Entries(r)) == Some(r)
  {
    var path := Entries(r);
    FramesOfFrames(r.backtrace, path[1..]);
  }

  /** Distinct records have distinct paths, so each key of the count map has its own path. */
  lemma EntriesInjective<E>(a: Record<E>, b: Record<E>)
    requires Entries(a) == Entries(b)
    ensures a == b
  {
    EntriesRoundTrip(a);
    EntriesRoundTrip(b);
  }

  /** `EventRecord::hash()`: the event hash and the backtrace hash combined. The hash functions
      and the combiner are parameters because `hashOf` and `CombineHash` are not part of this model. */
  function RecordHash<E>(r: Record<E>, hashEvent: E -> int, hashTrace: seq<Addr> -> int,
                         combine: (int, int) -> int): int
  {
    combine(hashEvent(r.event), hashTrace(r.backtrace))
  }

  /** Records that compare equal hash equal, whatever hash functions are plugged in. */
  lemma EqualRecordsHashEqual<E>(a: Record<E>, b: Record<E>, hashEvent: E -> int,
                                     hashTrace: seq<Addr> -> int, combine: (int, int) -> int)
    requires SameRecord(a, b)
    ensures RecordHash(a, hashEvent, hashTrace, combine) == RecordHash(b, hashEvent, hashTrace, combine)
  {
  }
}
