/** The LLVM optimisation pipeline configuration of the Kotlin/Native backend
    (kotlin-native/backend.native/compiler/ir/backend.native/src/org/jetbrains/kotlin/backend/konan/OptimizationPipeline.kt):
    the choice of optimisation, size and code generation levels, the flag derived from them, and
    the pass lists of the mandatory, module and LTO pipelines. The LLVM calls themselves are not
    part of the model; `Execute` stops at the pass description handed to LLVM. */
module OptimizationPipeline {
  import opened Wrappers
  import opened Text

  datatype OptimizationLevel = OptNone | OptDefault | OptAggressive

  /** The `value` of `LlvmOptimizationLevel`. */
  function OptimizationValue(level: OptimizationLevel): nat {
    match level
    case OptNone => 0
    case OptDefault => 1
    case OptAggressive => 3
  }

  datatype SizeLevel = SizeNone | SizeDefault | SizeAggressive

  /** The `value` of `LlvmSizeLevel`. */
  function SizeValue(level: SizeLevel): nat {
    match level
    case SizeNone => 0
    case SizeDefault => 1
    case SizeAggressive => 2
  }

  /** The code generation levels the configurations pick (`LLVMCodeGenOptLevel`). */
  datatype CodegenLevel = CodegenNone | CodegenDefault | CodegenAggressive

  /** `LlvmPipelineConfig`, without the relocation and code models (LLVM enums taken unchanged
      from the platform). */
  datatype PipelineConfig = PipelineConfig(
    targetTriple: string,
    cpuModel: string,
    cpuFeatures: string,
    optimizationLevel: OptimizationLevel,
    sizeLevel: SizeLevel,
    codegenLevel: CodegenLevel,
    globalDce: bool,
    internalize: bool,
    makeDeclarationsHidden: bool,
    objCPasses: bool,
    inlineThreshold: Option<int>,
    timePasses: bool)

  /** The targets the level choice distinguishes; `Zephyr` is a family of boards. */
  datatype Target = Zephyr(board: string) | Wasm32 | OtherTarget(name: string)

  /** What the configurations read from the compilation: whether to optimise or keep debug
      information, the target and its platform settings (`Configurables`), and whether the
      output is a static cache. */
  datatype Context = Context(
    shouldOptimize: bool,
    shouldContainDebugInfo: bool,
    target: Target,
    isApple: bool,
    producesStaticCache: bool,
    targetCpu: Option<string>,
    targetCpuFeatures: Option<string>,
    llvmInlineThreshold: Option<string>)

  /** The name a target prints as (`KonanTarget.name`): a Zephyr board is `zephyr_<board>`. */
  function TargetName(target: Target): string {
    match target
    case Zephyr(board) => "zephyr_" + board
    case Wasm32 => "wasm32"
    case OtherTarget(name) => name
  }

  const CPU_WARNING_HEAD := "targetCpu for target "

  function CpuWarning(target: Target): string {
    CPU_WARNING_HEAD + TargetName(target) + " was not set. Targeting `generic` cpu."
  }

  /** `getCpuModel`: the platform's CPU, or "generic" with one warning naming the target. */
  function CpuModel(ctx: Context): (r: (string, seq<string>))
    ensures ctx.targetCpu.Some? ==> r == (ctx.targetCpu.value, [])
    ensures ctx.targetCpu.None? ==> r.0 == "generic" && |r.1| == 1
    ensures ctx.targetCpu.None? ==>
              var name := TargetName(ctx.target);
              && |CPU_WARNING_HEAD| + |name| <= |r.1[0]|
              && r.1[0][..|CPU_WARNING_HEAD|] == CPU_WARNING_HEAD
              && r.1[0][|CPU_WARNING_HEAD|..|CPU_WARNING_HEAD| + |name|] == name
  {
    match ctx.targetCpu
    case Some(cpu) => (cpu, [])
    case None => ("generic", [CpuWarning(ctx.target)])
  }

  /** `getCpuFeatures`. */
  function CpuFeatures(ctx: Context): string {
    ctx.targetCpuFeatures.GetOr("")
  }

  /** `tryGetInlineThreshold`: the platform's threshold when it is an `Int`; a threshold that is
      not one is dropped with a warning. */
  function InlineThreshold(ctx: Context): (r: (Option<int>, seq<string>))
    ensures r.0.Some? <==> ctx.llvmInlineThreshold.Some? && ParseInt(ctx.llvmInlineThreshold.value).Some?
    ensures |r.1| == (if ctx.llvmInlineThreshold.Some? && r.0.None? then 1 else 0)
  {
    match ctx.llvmInlineThreshold
    case None => (None, [])
    case Some(text) =>
      match ParseInt(text)
      case Some(v) => (Some(v), [])
      case None => (None, ["`llvmInlineThreshold` should be an integer. Got `" + text + "` instead. Using default value."])
  }

  /** A threshold written as an `Int` is taken as that number, without a warning. */
  lemma InlineThresholdRoundTrip(ctx: Context, n: int)
    requires INT_MIN <= n <= INT_MAX
    requires ctx.llvmInlineThreshold == Some(IntToString(n))
    ensures InlineThreshold(ctx) == (Some(n), [])
  {
    IntRoundTrip(n);
  }

  /** `createLTOPipelineConfigForRuntime`: the runtime is always optimised aggressively, with
      no size optimisation, no DCE, no internalisation and nothing hidden, since it is linked
      with the program later. */
  function RuntimeConfig(ctx: Context, targetTriple: string): (r: (PipelineConfig, seq<string>))
    ensures var c := r.0;
            && c.optimizationLevel == OptAggressive && c.sizeLevel == SizeNone && c.codegenLevel == CodegenAggressive
            && !c.globalDce && !c.internalize && !c.makeDeclarationsHidden
            && c.objCPasses == ctx.isApple
            && c.inlineThreshold == InlineThreshold(ctx).0
            && c.targetTriple == targetTriple && !c.timePasses
  {
    var (cpu, cpuWarnings) := CpuModel(ctx);
    var (threshold, thresholdWarnings) := InlineThreshold(ctx);
    (PipelineConfig(targetTriple, cpu, CpuFeatures(ctx), OptAggressive, SizeNone, CodegenAggressive,
                    false, false, false, ctx.isApple, threshold, false),
     cpuWarnings + thresholdWarnings)
  }

  /** The optimisation level of the final LTO configuration. */
  function FinalOptimizationLevel(ctx: Context): OptimizationLevel {
    if ctx.shouldOptimize then OptAggressive
    else if ctx.shouldContainDebugInfo then OptNone
    else OptDefault
  }

  /** The size level of the final LTO configuration: embedded targets always optimise for size. */
  function FinalSizeLevel(ctx: Context): SizeLevel {
    if ctx.target.Zephyr? || ctx.target == Wasm32 then SizeAggressive
    else if ctx.shouldOptimize then SizeNone
    else if ctx.shouldContainDebugInfo then SizeNone
    else SizeNone
  }

  function FinalCodegenLevel(ctx: Context): CodegenLevel {
    if ctx.shouldOptimize then CodegenAggressive
    else if ctx.shouldContainDebugInfo then CodegenNone
    else CodegenDefault
  }

  /** `createLTOFinalPipelineConfig`. */
  function FinalConfig(ctx: Context, targetTriple: string, closedWorld: bool, timePasses: bool): (r: (PipelineConfig, seq<string>))
    ensures var c := r.0;
            && c.globalDce
            && c.internalize == closedWorld
            && c.makeDeclarationsHidden == ctx.producesStaticCache
            && c.objCPasses == ctx.isApple
            && (c.inlineThreshold.Some? ==> ctx.shouldOptimize)
            && (ctx.shouldOptimize ==> c.inlineThreshold == InlineThreshold(ctx).0)
            && c.targetTriple == targetTriple && c.timePasses == timePasses
  {
    var (cpu, cpuWarnings) := CpuModel(ctx);
    var (threshold, thresholdWarnings) :=
      if ctx.shouldOptimize then InlineThreshold(ctx)
      else if ctx.shouldContainDebugInfo then (None, [])
      else (None, []);
    (PipelineConfig(targetTriple, cpu, CpuFeatures(ctx), FinalOptimizationLevel(ctx), FinalSizeLevel(ctx),
                    FinalCodegenLevel(ctx), true, closedWorld, ctx.producesStaticCache, ctx.isApple,
                    threshold, timePasses),
     cpuWarnings + thresholdWarnings)
  }

  /** The levels of the final configuration: debug builds are not optimised, release builds are
      optimised aggressively, and only the embedded targets ask for a size level, which is then
      the aggressive one. */
  lemma FinalLevels(ctx: Context, targetTriple: string, closedWorld: bool, timePasses: bool)
    ensures var c := FinalConfig(ctx, targetTriple, closedWorld, timePasses).0;
            && (c.sizeLevel != SizeNone <==> ctx.target.Zephyr? || ctx.target == Wasm32)
            && c.sizeLevel != SizeDefault
            && (ctx.shouldOptimize ==> c.optimizationLevel == OptAggressive && c.codegenLevel == CodegenAggressive)
            && (!ctx.shouldOptimize && ctx.shouldContainDebugInfo ==> c.optimizationLevel == OptNone && c.codegenLevel == CodegenNone)
            && (!ctx.shouldOptimize && !ctx.shouldContainDebugInfo ==> c.optimizationLevel == OptDefault && c.codegenLevel == CodegenDefault)
  {
  }

  /** Both configurations target the platform's CPU, or "generic" when it names none, with the
      platform's CPU features, or none. */
  lemma ConfigCpu(ctx: Context, targetTriple: string, closedWorld: bool, timePasses: bool)
    ensures var c := FinalConfig(ctx, targetTriple, closedWorld, timePasses).0;
            c.cpuModel == ctx.targetCpu.GetOr("generic") && c.cpuFeatures == ctx.targetCpuFeatures.GetOr("")
    ensures var c := RuntimeConfig(ctx, targetTriple).0;
            c.cpuModel == ctx.targetCpu.GetOr("generic") && c.cpuFeatures == ctx.targetCpuFeatures.GetOr("")
  {
  }

  /** `optimizationFlag`: "Os" whenever a size level is asked for, otherwise "O" and the
      optimisation level's value. */
  function OptimizationFlag(c: PipelineConfig): (flag: string)
    ensures flag == "Os" <==> c.sizeLevel != SizeNone
    ensures c.sizeLevel == SizeNone ==> flag == "O" + NatToString(OptimizationValue(c.optimizationLevel))
    ensures flag in {"Os", "O0", "O1", "O3"}
  {
    if c.sizeLevel != SizeNone then "Os"
    else
      var v := OptimizationValue(c.optimizationLevel);
      assert "O" + NatToString(v) == (if v == 0 then "O0" else if v == 1 then "O1" else "O3") by {
        assert NatToString(v) == [DigitChar(v)];
        assert DigitChar(0) == '0' && DigitChar(1) == '1' && DigitChar(3) == '3';
      }
      "O" + NatToString(v)
  }

  /** The level a flag names, if it names one. */
  function FlagLevel(flag: string): Option<OptimizationLevel> {
    if flag == "O0" then Some(OptNone)
    else if flag == "O1" then Some(OptDefault)
    else if flag == "O3" then Some(OptAggressive)
    else None
  }

  /** Without a size level the flag names the optimisation level, so distinct levels give
      distinct flags; with one, the flag names no level. */
  lemma FlagNamesLevel(c: PipelineConfig)
    ensures c.sizeLevel == SizeNone ==> FlagLevel(OptimizationFlag(c)) == Some(c.optimizationLevel)
    ensures c.sizeLevel != SizeNone ==> FlagLevel(OptimizationFlag(c)) == None
  {
  }

  /** The passes of the mandatory pipeline: only the ObjC ARC contraction, on Apple platforms. */
  function MandatoryPasses(c: PipelineConfig): (passes: seq<string>)
    ensures passes == [] <==> !c.objCPasses
    ensures c.objCPasses ==> passes == ["objc-arc-contract"]
  {
    if c.objCPasses then ["objc-arc-contract"] else []
  }

  /** The passes of the module pipeline: LLVM's default pipeline at the flag's level. */
  function ModulePasses(c: PipelineConfig): (passes: seq<string>)
    ensures |passes| == 1 && passes[0] == "default<" + OptimizationFlag(c) + ">"
  {
    ["default<" + OptimizationFlag(c) + ">"]
  }

  /** The passes of the LTO pipeline: internalisation and global DCE when asked for, in that
      order, and always LLVM's LTO pipeline at the flag's level last. */
  function LtoPasses(c: PipelineConfig): (passes: seq<string>)
    ensures |passes| == 1 + (if c.internalize then 1 else 0) + (if c.globalDce then 1 else 0)
    ensures passes[|passes| - 1] == "lto<" + OptimizationFlag(c) + ">"
    ensures "internalize" in passes <==> c.internalize
    ensures "globaldce" in passes <==> c.globalDce
    ensures c.internalize ==> passes[0] == "internalize"
    ensures c.globalDce ==> passes[|passes| - 2] == "globaldce"
  {
    var flag := OptimizationFlag(c);
    assert "lto<" + flag + ">" != "internalize" && "lto<" + flag + ">" != "globaldce" by {
      assert ("lto<" + flag + ">")[0] == 'l' && ("lto<" + flag + ">")[3] == '<';
    }
    (if c.internalize then ["internalize"] else [])
    + (if c.globalDce then ["globaldce"] else [])
    + ["lto<" + flag + ">"]
  }

  /** `execute`: nothing is run for an empty pass list; otherwise LLVM runs the passes joined
      by commas. */
  function Execute(passes: seq<string>): (description: Option<string>)
    ensures description.None? <==> passes == []
    ensures description.Some? && (forall i | 0 <= i < |passes| :: ',' !in passes[i]) ==> Split(description.value, ',') == passes
  {
    if passes == [] then None
    else
      PassListRoundTrip(passes);
      Some(Join(passes, ","))
  }

  /** A pass description splits back into its passes when no pass name holds a comma. */
  lemma PassListRoundTrip(passes: seq<string>)
    requires passes != []
    ensures (forall i | 0 <= i < |passes| :: ',' !in passes[i]) ==> Split(Join(passes, ","), ',') == passes
  {
    if forall i | 0 <= i < |passes| :: ',' !in passes[i] {
      JoinSplit(passes, ',');
    }
  }

  /** The mandatory pipeline runs only on Apple platforms; the module and LTO pipelines always
      run. */
  lemma WhichPipelinesRun(c: PipelineConfig)
    ensures Execute(MandatoryPasses(c)).Some? <==> c.objCPasses
    ensures Execute(ModulePasses(c)).Some?
    ensures Execute(LtoPasses(c)).Some?
  {
  }

  /** Embedded targets always get "Os"; elsewhere the final configuration's flag is "O3" when
      optimising, "O0" for a debug build and "O1" otherwise. */
  lemma FinalFlag(ctx: Context, targetTriple: string, closedWorld: bool, timePasses: bool)
    ensures var flag := OptimizationFlag(FinalConfig(ctx, targetTriple, closedWorld, timePasses).0);
            && (ctx.target.Zephyr? || ctx.target == Wasm32 ==> flag == "Os")
            && (!ctx.target.Zephyr? && ctx.target != Wasm32 ==>
                  flag == (if ctx.shouldOptimize then "O3" else if ctx.shouldContainDebugInfo then "O0" else "O1"))
  {
  }

  /** The final LTO pipeline always removes dead globals and internalises exactly in a closed
      world; the runtime's LTO pipeline only runs LLVM's LTO pipeline at "O3". */
  lemma LtoPassesOfConfigs(ctx: Context, targetTriple: string, closedWorld: bool, timePasses: bool)
    ensures var final := LtoPasses(FinalConfig(ctx, targetTriple, closedWorld, timePasses).0);
            && "globaldce" in final
            && ("internalize" in final <==> closedWorld)
    ensures LtoPasses(RuntimeConfig(ctx, targetTriple).0) == ["lto<O3>"]
  {
    var runtime := RuntimeConfig(ctx, targetTriple).0;
    assert OptimizationFlag(runtime) == "O3";
    assert "lto<" + OptimizationFlag(runtime) + ">" == "lto<O3>";
  }
}
