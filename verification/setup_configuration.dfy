/** The argument parsers and selectors of the Kotlin/Native compiler setup
    (kotlin-native/backend.native/compiler/ir/backend.native/src/org/jetbrains/kotlin/backend/konan/SetupConfiguration.kt).
    Reporting a diagnostic to the configuration becomes a returned list of diagnostics; an
    exception becomes a `Failure`. */
module SetupConfiguration {
  import opened Wrappers
  import opened Text

  datatype Severity = Error | StrongWarning | Warning | Logging

  datatype Diagnostic = Diagnostic(severity: Severity, message: string)

  // ---------------------------------------------------------------------------------------------
  // `mapNotNull { ... }.toMap()`: entries parsed one by one, rejected ones reported and dropped,
  // and a later entry for a key replacing an earlier one.

  /** The map `items.mapNotNull(parse).toMap()` builds. */
  function Collect<T>(items: seq<T>, parse: T -> Option<(string, string)>): map<string, string>
    decreases |items|
  {
    if |items| == 0 then map[]
    else
      var m := Collect(items[..|items| - 1], parse);
      match parse(items[|items| - 1])
      case None => m
      case Some(kv) => m[kv.0 := kv.1]
  }

  /** The items `parse` refuses, in their input order: every one of them, and nothing else. */
  function Rejected<T>(items: seq<T>, parse: T -> Option<(string, string)>): (r: seq<T>)
    ensures |r| <= |items|
    ensures forall k | 0 <= k < |r| :: r[k] in items && parse(r[k]).None?
    ensures forall i | 0 <= i < |items| && parse(items[i]).None? :: items[i] in r
    decreases |items|
  {
    if |items| == 0 then []
    else
      var r := Rejected(items[..|items| - 1], parse);
      var last := items[|items| - 1];
      assert forall i | 0 <= i < |items| - 1 :: items[i] == items[..|items| - 1][i];
      if parse(last).None? then r + [last] else r
  }

  /** One error per rejected item, in order, carrying that item's message. */
  function Rejections<T>(items: seq<T>, parse: T -> Option<(string, string)>, message: T -> string): (ds: seq<Diagnostic>)
    ensures |ds| == |Rejected(items, parse)|
    ensures forall k | 0 <= k < |ds| :: ds[k] == Diagnostic(Error, message(Rejected(items, parse)[k]))
    decreases |items|
  {
    if |items| == 0 then []
    else
      var ds := Rejections(items[..|items| - 1], parse, message);
      var last := items[|items| - 1];
      if parse(last).None? then ds + [Diagnostic(Error, message(last))] else ds
  }

  /** No diagnostic is reported exactly when every item is accepted. */
  lemma {:induction false} RejectionsNoneIffAccepted<T>(items: seq<T>, parse: T -> Option<(string, string)>, message: T -> string)
    ensures Rejections(items, parse, message) == [] <==> forall i | 0 <= i < |items| :: parse(items[i]).Some?
  {
    var ds := Rejections(items, parse, message);
    if ds != [] {
      var x := Rejected(items, parse)[0];
      var i :| 0 <= i < |items| && items[i] == x;
      assert parse(items[i]).None?;
    }
  }

  /** A key is in the collected map exactly when some accepted item has it. */
  lemma {:induction false} CollectKeys<T>(items: seq<T>, parse: T -> Option<(string, string)>, k: string)
    ensures k in Collect(items, parse) <==>
              exists i | 0 <= i < |items| :: parse(items[i]).Some? && parse(items[i]).value.0 == k
    decreases |items|
  {
    if |items| > 0 {
      var init := items[..|items| - 1];
      CollectKeys(init, parse, k);
      if exists i | 0 <= i < |init| :: parse(init[i]).Some? && parse(init[i]).value.0 == k {
        var i :| 0 <= i < |init| && parse(init[i]).Some? && parse(init[i]).value.0 == k;
        assert items[i] == init[i];
      }
      if exists i | 0 <= i < |items| :: parse(items[i]).Some? && parse(items[i]).value.0 == k {
        var i :| 0 <= i < |items| && parse(items[i]).Some? && parse(items[i]).value.0 == k;
        if i < |init| {
          assert init[i] == items[i];
        }
      }
    }
  }

  /** The value for a key is the one from the last accepted item with that key. */
  lemma {:induction false} CollectLastWins<T>(items: seq<T>, parse: T -> Option<(string, string)>, i: nat)
    requires i < |items| && parse(items[i]).Some?
    requires forall j | i < j < |items| :: parse(items[j]).None? || parse(items[j]).value.0 != parse(items[i]).value.0
    ensures var kv := parse(items[i]).value;
            kv.0 in Collect(items, parse) && Collect(items, parse)[kv.0] == kv.1
    decreases |items|
  {
    if i < |items| - 1 {
      var init := items[..|items| - 1];
      assert init[i] == items[i];
      forall j | i < j < |init|
        ensures parse(init[j]).None? || parse(init[j]).value.0 != parse(init[i]).value.0
      {
        assert init[j] == items[j];
      }
      CollectLastWins(init, parse, i);
    }
  }

  // ---------------------------------------------------------------------------------------------
  // `parseKeyValuePairs`

  /** One `<key>=<value>` item: accepted when its first '=' is not at the start; the key is the
      text before that '=', the value everything after it, '=' included. */
  function KeyValueEntry(item: string): (r: Option<(string, string)>)
    ensures r.Some? <==> IndexOf(item, '=') > 0
    ensures r.Some? ==> r.value.0 + "=" + r.value.1 == item && r.value.0 != "" && '=' !in r.value.0
  {
    var i := IndexOf(item, '=');
    if i > 0 then
      assert item == item[..i] + "=" + item[i + 1..];
      Some((item[..i], item[i + 1..]))
    else None
  }

  /** Writing a key without '=' and any value as `key=value` parses back to them. */
  lemma KeyValueRoundTrip(key: string, value: string)
    requires key != "" && '=' !in key
    ensures KeyValueEntry(key + "=" + value) == Some((key, value))
  {
    var item := key + "=" + value;
    assert item[|key|] == '=';
    assert item[..|key|] == key;
    IndexOfAt(item, '=', |key|);
    assert item[|key| + 1..] == value;
  }

  function PropertyFormatMessage(item: string): string {
    "incorrect property format: expected '<key>=<value>', got '" + item + "'"
  }

  /** `parseKeyValuePairs`: no argument gives no map; otherwise the accepted items' map and an
      error for each rejected item. */
  function ParseKeyValuePairs(argument: Option<seq<string>>): (r: (Option<map<string, string>>, seq<Diagnostic>))
    ensures argument.None? <==> r.0.None?
    ensures argument.None? ==> r.1 == []
    ensures argument.Some? ==> forall k | k in r.0.value ::
              exists i | 0 <= i < |argument.value| :: KeyValueEntry(argument.value[i]).Some? && KeyValueEntry(argument.value[i]).value.0 == k
  {
    match argument
    case None => (None, [])
    case Some(items) =>
      var m := Collect(items, KeyValueEntry);
      forall k | k in m
        ensures exists i | 0 <= i < |items| :: KeyValueEntry(items[i]).Some? && KeyValueEntry(items[i]).value.0 == k
      {
        CollectKeys(items, KeyValueEntry, k);
      }
      (Some(m), Rejections(items, KeyValueEntry, PropertyFormatMessage))
  }

  // ---------------------------------------------------------------------------------------------
  // `parseCachedLibraries` and `parseDebugPrefixMap`

  /** An item accepted when splitting it at `sep` gives exactly two parts. */
  function SplitPair(item: string, sep: char): (r: Option<(string, string)>)
    ensures r.Some? <==> Count(item, sep) == 1
    ensures r.Some? ==> r.value.0 + [sep] + r.value.1 == item && sep !in r.value.0 && sep !in r.value.1
  {
    var parts := Split(item, sep);
    SplitCount(item, sep);
    if |parts| != 2 then None
    else
      SplitJoin(item, sep);
      assert Join(parts, [sep]) == parts[0] + [sep] + Join(parts[1..], [sep]);
      assert parts[1..] == [parts[1]];
      Some((parts[0], parts[1]))
  }

  /** Two parts without the separator, joined by it, split back into themselves. */
  lemma SplitPairRoundTrip(a: string, b: string, sep: char)
    requires sep !in a && sep !in b
    ensures SplitPair(a + [sep] + b, sep) == Some((a, b))
  {
    var item := a + [sep] + b;
    CountZero(a, sep);
    CountZero(b, sep);
    CountAppend(a, [sep] + b, sep);
    CountAppend([sep], b, sep);
    assert a + ([sep] + b) == item;
    var r := SplitPair(item, sep);
    SplitUnique(r.value.0, r.value.1, a, b, sep);
  }

  /** A string with one separator is cut at it in only one way. */
  lemma SplitUnique(a1: string, b1: string, a2: string, b2: string, sep: char)
    requires sep !in a1 && sep !in a2
    requires a1 + [sep] + b1 == a2 + [sep] + b2
    ensures a1 == a2 && b1 == b2
  {
    var s := a1 + [sep] + b1;
    assert s[..|a1|] == a1 && s[|a1|] == sep;
    IndexOfAt(s, sep, |a1|);
    assert s == a2 + [sep] + b2;
    assert s[..|a2|] == a2 && s[|a2|] == sep;
    IndexOfAt(s, sep, |a2|);
    assert a1 == s[..|a1|] == a2;
    assert b1 == s[|a1| + 1..] == b2;
  }

  function CachedLibraryEntry(item: string): Option<(string, string)> {
    SplitPair(item, ',')
  }

  function DebugPrefixEntry(item: string): Option<(string, string)> {
    SplitPair(item, '=')
  }

  function CachedLibraryMessage(item: string): string {
    "incorrect -Xcached-library format: expected '<library>,<cache>', got '" + item + "'"
  }

  function DebugPrefixMessage(item: string): string {
    "incorrect debug prefix map format: expected '<old>=<new>', got '" + item + "'"
  }

  /** `parseCachedLibraries`: a missing argument counts as no items. */
  function ParseCachedLibraries(argument: Option<seq<string>>): (r: (map<string, string>, seq<Diagnostic>))
    ensures argument.None? ==> r == (map[], [])
    ensures var items := argument.GetOr([]);
            forall library | library in r.0 :: exists i | 0 <= i < |items| :: items[i] == library + "," + r.0[library]
  {
    var items := argument.GetOr([]);
    var m := Collect(items, CachedLibraryEntry);
    forall library | library in m
      ensures exists i | 0 <= i < |items| :: items[i] == library + "," + m[library]
    {
      CollectedFrom(items, CachedLibraryEntry, ',', library);
    }
    (m, Rejections(items, CachedLibraryEntry, CachedLibraryMessage))
  }

  /** `parseDebugPrefixMap`: a missing argument counts as no items. */
  function ParseDebugPrefixMap(argument: Option<seq<string>>): (r: (map<string, string>, seq<Diagnostic>))
    ensures argument.None? ==> r == (map[], [])
    ensures var items := argument.GetOr([]);
            forall prefix | prefix in r.0 :: exists i | 0 <= i < |items| :: items[i] == prefix + "=" + r.0[prefix]
  {
    var items := argument.GetOr([]);
    var m := Collect(items, DebugPrefixEntry);
    forall prefix | prefix in m
      ensures exists i | 0 <= i < |items| :: items[i] == prefix + "=" + m[prefix]
    {
      CollectedFrom(items, DebugPrefixEntry, '=', prefix);
    }
    (m, Rejections(items, DebugPrefixEntry, DebugPrefixMessage))
  }

  /** Every pair of a map collected with `SplitPair` is one of the items, split. */
  lemma {:induction false} CollectedFrom(items: seq<string>, parse: string -> Option<(string, string)>, sep: char, k: string)
    requires forall x :: parse(x) == SplitPair(x, sep)
    requires k in Collect(items, parse)
    ensures exists i | 0 <= i < |items| :: items[i] == k + [sep] + Collect(items, parse)[k]
    decreases |items|
  {
    var init := items[..|items| - 1];
    var last := items[|items| - 1];
    if parse(last).Some? && parse(last).value.0 == k {
      assert items[|items| - 1] == k + [sep] + Collect(items, parse)[k];
    } else {
      CollectedFrom(init, parse, sep, k);
      var i :| 0 <= i < |init| && init[i] == k + [sep] + Collect(init, parse)[k];
      assert items[i] == init[i];
    }
  }

  /** The two `=`-separated formats differ: a key/value item may carry '=' in its value, a debug
      prefix item may not; a debug prefix item may have an empty old prefix, a key/value item may
      not have an empty key. Otherwise they agree. */
  lemma KeyValueAndDebugPrefix(item: string)
    ensures DebugPrefixEntry(item).Some? && DebugPrefixEntry(item).value.0 != "" ==> KeyValueEntry(item) == DebugPrefixEntry(item)
    ensures KeyValueEntry("a=b=c") == Some(("a", "b=c")) && DebugPrefixEntry("a=b=c") == None
    ensures KeyValueEntry("=x") == None && DebugPrefixEntry("=x") == Some(("", "x"))
  {
    var d := DebugPrefixEntry(item);
    if d.Some? && d.value.0 != "" {
      KeyValueRoundTrip(d.value.0, d.value.1);
    }
    SecondEquals();
    EmptyKey();
  }

  /** A second '=' belongs to the value of a property but is refused in a debug prefix map. */
  lemma SecondEquals()
    ensures KeyValueEntry("a=b=c") == Some(("a", "b=c"))
    ensures DebugPrefixEntry("a=b=c") == None
  {
    KeyValueRoundTrip("a", "b=c");
    assert "a=b=c" == "a" + "=" + "b=c";
    assert Count("a=b=c", '=') == 2;
  }

  /** An empty old prefix is accepted, an empty property key is not. */
  lemma EmptyKey()
    ensures KeyValueEntry("=x") == None
    ensures DebugPrefixEntry("=x") == Some(("", "x"))
  {
    assert IndexOf("=x", '=') == 0;
    SplitPairRoundTrip("", "x", '=');
    assert "" + ['='] + "x" == "=x";
  }

  // ---------------------------------------------------------------------------------------------
  // `parseBackendThreads` and the thread count derived from it

  const BACKEND_THREADS_NEGATIVE := "-Xbackend-threads value cannot be negative"

  function BackendThreadsUnparsable(s: string): string {
    "Cannot parse -Xbackend-threads value: \"" + s + "\". Please use an integer number"
  }

  /** `parseBackendThreads`: the value when the text is an `Int` that is not negative. */
  function ParseBackendThreads(s: string): (r: Result<nat>)
    ensures r.Ok? <==> ParseInt(s).Some? && ParseInt(s).value >= 0
    ensures r.Ok? ==> r.value <= INT_MAX
  {
    match ParseInt(s)
    case None => Failure(BackendThreadsUnparsable(s))
    case Some(v) => if v < 0 then Failure(BACKEND_THREADS_NEGATIVE) else Ok(v)
  }

  /** Every thread count an `Int` can hold is read back as written; negative ones are refused. */
  lemma BackendThreadsRoundTrip(n: int)
    requires INT_MIN <= n <= INT_MAX
    ensures n >= 0 ==> ParseBackendThreads(IntToString(n)) == Ok(n)
    ensures n < 0 ==> ParseBackendThreads(IntToString(n)) == Failure(BACKEND_THREADS_NEGATIVE)
  {
    IntRoundTrip(n);
  }

  /** What the setup reports about the thread count it chose: a log line when the backend runs in
      parallel, and a warning when there are more threads than processors. */
  function ThreadCountDiagnostics(nThreads: nat, availableProcessors: nat): (ds: seq<Diagnostic>)
    ensures |ds| == (if nThreads > 1 then 1 else 0) + (if nThreads > availableProcessors then 1 else 0)
    ensures (exists k | 0 <= k < |ds| :: ds[k].severity == Logging) <==> nThreads > 1
    ensures (exists k | 0 <= k < |ds| :: ds[k].severity == Warning) <==> nThreads > availableProcessors
  {
    var log := if nThreads > 1 then [Diagnostic(Logging, ParallelMessage(nThreads))] else [];
    var warn := if nThreads > availableProcessors then [Diagnostic(Warning, OversubscribedMessage(nThreads, availableProcessors))] else [];
    var ds := log + warn;
    assert nThreads > 1 ==> ds[0].severity == Logging;
    assert nThreads > availableProcessors ==> ds[|ds| - 1].severity == Warning;
    ds
  }

  function ParallelMessage(nThreads: nat): string {
    "Running backend in parallel with " + IntToString(nThreads) + " threads"
  }

  function OversubscribedMessage(nThreads: nat, availableProcessors: nat): string {
    "The number of threads " + IntToString(nThreads) + " is more than the number of processors " + IntToString(availableProcessors)
  }

  /** The thread count the setup uses, with what it reports about it: 0 stands for one thread per
      available processor, and any other count is taken as given. An unparsable or negative
      argument fails with the parser's message. */
  function BackendThreads(s: string, availableProcessors: nat): (r: Result<(nat, seq<Diagnostic>)>)
    ensures r.Ok? <==> ParseBackendThreads(s).Ok?
    ensures r.Failure? ==> r.message == ParseBackendThreads(s).message
    ensures r.Ok? && ParseBackendThreads(s).value == 0 ==> r.value.0 == availableProcessors
    ensures r.Ok? && ParseBackendThreads(s).value > 0 ==> r.value.0 == ParseBackendThreads(s).value
    ensures r.Ok? && availableProcessors > 0 ==> r.value.0 > 0
    ensures r.Ok? ==> ((exists k | 0 <= k < |r.value.1| :: r.value.1[k].severity == Warning) <==> r.value.0 > availableProcessors)
  {
    match ParseBackendThreads(s)
    case Failure(e) => Failure(e)
    case Ok(v) =>
      var n := if v == 0 then availableProcessors else v;
      Ok((n, ThreadCountDiagnostics(n, availableProcessors)))
  }

  /** Asking for one thread per processor never draws the oversubscription warning; asking for
      more threads than there are processors always does. */
  lemma {:induction false} BackendThreadsWarning(s: string, availableProcessors: nat)
    requires ParseBackendThreads(s).Ok?
    ensures var r := BackendThreads(s, availableProcessors);
            var warned := exists k | 0 <= k < |r.value.1| :: r.value.1[k].severity == Warning;
            warned <==> ParseBackendThreads(s).value > availableProcessors
  {
    var v := ParseBackendThreads(s).value;
    var r := BackendThreads(s, availableProcessors);
    assert r.value.0 > availableProcessors <==> v > availableProcessors;
  }

  // ---------------------------------------------------------------------------------------------
  // `selectBitcodeEmbeddingMode`, `selectExportedLibraries`, `selectIncludes`

  datatype BitcodeEmbeddingMode = EmbedNone | EmbedMarker | EmbedFull

  const EMBED_BITCODE_IGNORED := "'-Xembed-bitcode' is ignored because '-Xembed-bitcode-marker' is specified"

  /** `selectBitcodeEmbeddingMode`: the marker flag wins over full embedding, with a warning
      when both are given. */
  function SelectBitcodeEmbeddingMode(embedBitcodeMarker: bool, embedBitcode: bool): (r: (BitcodeEmbeddingMode, seq<Diagnostic>))
    ensures r.0 == EmbedMarker <==> embedBitcodeMarker
    ensures r.0 == EmbedFull <==> !embedBitcodeMarker && embedBitcode
    ensures r.0 == EmbedNone <==> !embedBitcodeMarker && !embedBitcode
    ensures |r.1| == (if embedBitcodeMarker && embedBitcode then 1 else 0)
    ensures forall i | 0 <= i < |r.1| :: r.1[i].severity == StrongWarning
  {
    if embedBitcodeMarker then
      (EmbedMarker, if embedBitcode then [Diagnostic(StrongWarning, EMBED_BITCODE_IGNORED)] else [])
    else if embedBitcode then (EmbedFull, [])
    else (EmbedNone, [])
  }

  /** The output kinds these selectors distinguish; the other kinds of `CompilerOutputKind` are
      not part of this model and behave alike here. An `OtherKind` carries the lower-case name of
      a kind that is none of the four named ones (`WellNamed`). */
  datatype OutputKind = Framework | Static | Dynamic | Library | OtherKind(name: string)

  const NAMED_KINDS: set<string> := {"framework", "static", "dynamic", "library"}

  /** An `OtherKind` never stands for one of the kinds that have a constructor of their own. */
  predicate WellNamed(kind: OutputKind) {
    kind.OtherKind? ==> kind.name !in NAMED_KINDS
  }

  /** `outputKind.name.lowercase()`. */
  function KindName(kind: OutputKind): string {
    match kind
    case Framework => "framework"
    case Static => "static"
    case Dynamic => "dynamic"
    case Library => "library"
    case OtherKind(name) => name
  }

  /** Among well-named kinds, the name identifies the kind: the diagnostics that quote it never
      confuse two kinds. */
  lemma KindNameIdentifies(a: OutputKind, b: OutputKind)
    requires WellNamed(a) && WellNamed(b)
    ensures KindName(a) == KindName(b) <==> a == b
  {
  }

  /** `selectExportedLibraries`: exported libraries are kept only when producing a framework or
      a native library; otherwise they are dropped with a warning. */
  function SelectExportedLibraries(exported: Option<seq<string>>, kind: OutputKind): (r: (seq<string>, seq<Diagnostic>))
    ensures var libs := exported.GetOr([]);
            && (r.0 == libs || r.0 == [])
            && (r.0 == libs <==> libs == [] || kind in {Framework, Static, Dynamic})
            && (|r.1| == 1 <==> libs != [] && kind !in {Framework, Static, Dynamic})
            && (|r.1| == 0 <==> libs == [] || kind in {Framework, Static, Dynamic})
  {
    var libs := exported.GetOr([]);
    if libs != [] && kind != Framework && kind != Static && kind != Dynamic then
      ([], [Diagnostic(StrongWarning, ExportLibraryMessage(kind))])
    else (libs, [])
  }

  function ExportLibraryMessage(kind: OutputKind): string {
    "-Xexport-library is only supported when producing frameworks or native libraries, "
      + "but the compiler is producing " + KindName(kind)
  }

  /** `selectIncludes`: included libraries are dropped with an error when producing a library. */
  function SelectIncludes(includes: Option<seq<string>>, kind: OutputKind): (r: (seq<string>, seq<Diagnostic>))
    ensures var libs := includes.GetOr([]);
            && (r.0 == libs || r.0 == [])
            && (r.0 == libs <==> libs == [] || kind != Library)
            && (|r.1| == 1 <==> libs != [] && kind == Library)
            && (|r.1| == 0 <==> libs == [] || kind != Library)
  {
    var libs := includes.GetOr([]);
    if libs != [] && kind == Library then
      ([], [Diagnostic(Error, "The -Xinclude flag is not supported when producing " + KindName(kind))])
    else (libs, [])
  }

  // ---------------------------------------------------------------------------------------------
  // `update`

  /** `CompilerConfiguration.update`: the block sees the current value (none if unset); a value
      it returns is stored and returned, and none leaves the configuration as it was. */
  function Update<K, T>(config: map<K, T>, key: K, block: Option<T> -> Option<T>): (r: (map<K, T>, Option<T>))
    ensures r.1 == block(if key in config then Some(config[key]) else None)
    ensures r.1.Some? ==> key in r.0 && r.0[key] == r.1.value
    ensures r.1.None? ==> r.0 == config
    ensures r.0.Keys <= config.Keys + {key}
    ensures forall k | k in config && k != key :: k in r.0 && r.0[k] == config[k]
  {
    var current := if key in config then Some(config[key]) else None;
    var result := block(current);
    match result
    case None => (config, result)
    case Some(v) => (config[key := v], result)
  }

  /** The `it ?: default` blocks of the setup. */
  function OrDefault<T>(default: T): Option<T> -> Option<T> {
    (x: Option<T>) => if x.Some? then x else Some(default)
  }

  /** An update with `it ?: default` keeps a value that is set and otherwise stores the default;
      doing it twice changes nothing more. */
  lemma UpdateOrDefault<K, T>(config: map<K, T>, key: K, default: T)
    ensures var r := Update(config, key, OrDefault(default));
            && key in r.0
            && r.0[key] == (if key in config then config[key] else default)
            && r.1 == Some(r.0[key])
            && Update(r.0, key, OrDefault(default)).0 == r.0
  {
    var r := Update(config, key, OrDefault(default));
    assert r.1 == Some(if key in config then config[key] else default);
    var r2 := Update(r.0, key, OrDefault(default));
    assert r2.1 == Some(r.0[key]);
    assert r2.0 == r.0[key := r.0[key]] == r.0;
  }
}
