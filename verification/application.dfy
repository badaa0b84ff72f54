/** Argument validation, mode dispatch and job construction of etcpak's
    `main()`.  What the image loader and `DataProvider` report about the
    input (its size, whether it has alpha, its partitions) is a parameter:
    neither is part of this model. */
module Application {
  import opened Wrappers
  import opened Formats
  import opened Tasks
  import Options

  /** A command line as `getopt_long` sees it: `argc`, the option values it
      returns, and the positional operands left from `optind` on. */
  datatype Invocation = Invocation(argc: nat, opts: seq<Options.Opt>, operands: seq<string>)

  /** What the loaded input reports: base-level size, whether it carries an
      alpha channel, and the partitions `DataProvider::NextPart` yields. */
  datatype Source = Source(hasAlpha: bool, width: nat, height: nat, parts: seq<Part>)

  /** Flag arguments of the `DataProvider` constructor: the mipmap flag and
      the third argument, `!dxt1`, whose meaning belongs to `DataProvider`
      and `Bitmap` and is not interpreted here. */
  datatype Request = Request(mipmap: bool, notDxt1: bool)

  /** A freshly allocated `BlockData`: output path, mipmap flag, format. */
  datatype Buffer = Buffer(path: string, mipmap: bool, format: BlockType)

  /** The encode path's buffers and the units it queues before `Sync()`. */
  datatype Job = Job(colour: Buffer, alpha: Option<Buffer>, tasks: seq<Task>)

  /** What `main()` goes on to do.  `EncodeBenchmark.notDxt1` is the third
      `Bitmap` constructor argument, `!dxt1`. */
  datatype Action =
    | Usage
    | DecodeBenchmark(input: string, repetitions: nat)
    | EncodeBenchmark(input: string, notDxt1: bool, format: BlockType, runs: seq<Task>)
    | View(input: string, output: string)
    | Encode(input: string, request: Request, job: Job, stats: bool)

  /** `NumTasks`: how many timed repetitions both benchmarks make. */
  const BenchmarkRuns: nat := 9

  /** Whether the encode path allocates a separate alpha buffer. */
  predicate HasAlphaBuffer(f: Options.Flags, sourceAlpha: bool)
  {
    f.alpha.Some? && sourceAlpha && !f.rgba
  }

  /** The encode path: format, colour buffer, optional alpha buffer sharing
      its format, and the queued units. */
  function EncodeJob(f: Options.Flags, output: string, src: Source): Job
  {
    var t := EncodeFormat(f, src.hasAlpha);
    var alpha := if HasAlphaBuffer(f, src.hasAlpha) then Some(Buffer(f.alpha.value, f.mipmap, t)) else None;
    Job(Buffer(output, f.mipmap, t), alpha, Plan(t, f.dither, alpha.Some?, src.parts))
  }

  /** The single `Process*` call one compression-benchmark repetition makes:
      the whole image, `width * height / 16` blocks from offset 0. */
  function BenchTask(f: Options.Flags, width: nat, height: nat): Task
  {
    var blocks := width * height / 16;
    if f.rgba then Task(Colour, ProcessRgba, blocks, 0, width)
    else Task(Colour, Process(BenchChannel(f), f.dither), blocks, 0, width)
  }

  /** The repetitions of the compression benchmark. */
  function BenchEncodeRuns(f: Options.Flags, width: nat, height: nat): seq<Task>
  {
    seq(BenchmarkRuns, _ => BenchTask(f, width, height))
  }

  /** `main()` from the argument-count check to the end of the chosen mode. */
  function Run(inv: Invocation, src: Source): Action
  {
    if inv.argc < 3 then Usage
    else
      match Options.Parse(inv.opts)
      case None => Usage
      case Some(parsed) =>
        var f := Options.ApplyDitherPolicy(parsed);
        if f.benchmark then
          if |inv.operands| < 1 then Usage
          else if f.viewMode then DecodeBenchmark(inv.operands[0], BenchmarkRuns)
          else EncodeBenchmark(inv.operands[0], !f.dxt1, BenchFormat(f),
                               BenchEncodeRuns(f, src.width, src.height))
        else if |inv.operands| < 2 then Usage
        else if f.viewMode then View(inv.operands[0], inv.operands[1])
        else Encode(inv.operands[0], Request(f.mipmap, !f.dxt1),
                    EncodeJob(f, inv.operands[1], src), f.stats)
  }

  /** The process exit status. */
  function ExitCode(a: Action): int
  {
    if a.Usage? then 1 else 0
  }

  /** Usage is printed and 1 returned exactly when there are fewer than three
      argv entries, an option is unrecognised, or too few operands remain for
      the mode: one in benchmark mode, two otherwise. */
  lemma UsageCases(inv: Invocation, src: Source)
    ensures ExitCode(Run(inv, src)) == 1 <==>
              || inv.argc < 3
              || Options.Unrecognised in inv.opts
              || (Options.Benchmark in inv.opts && |inv.operands| < 1)
              || (Options.Benchmark !in inv.opts && |inv.operands| < 2)
  {
    Options.ParseSpec(inv.opts);
  }

  /** Mode priority: benchmark before view before encode; `-b -v` is the
      decode benchmark.  The input is the first operand, and the output the
      second, which only the non-benchmark modes take. */
  lemma ModeDispatch(inv: Invocation, src: Source)
    requires !Run(inv, src).Usage?
    ensures Run(inv, src).input == inv.operands[0]
    ensures Run(inv, src).DecodeBenchmark? <==>
              Options.Benchmark in inv.opts && Options.View in inv.opts
    ensures Run(inv, src).EncodeBenchmark? <==>
              Options.Benchmark in inv.opts && Options.View !in inv.opts
    ensures Run(inv, src).View? <==>
              Options.Benchmark !in inv.opts && Options.View in inv.opts
    ensures Run(inv, src).Encode? <==>
              Options.Benchmark !in inv.opts && Options.View !in inv.opts
    ensures Run(inv, src).View? ==> Run(inv, src).output == inv.operands[1]
    ensures Run(inv, src).Encode? ==> Run(inv, src).job.colour.path == inv.operands[1]
  {
    Options.ParseSpec(inv.opts);
  }

  /** A separate alpha buffer exists iff `-a` was given, the source has alpha
      and `--rgba` was not given; it is written to the last `-a` path, uses
      the colour buffer's format and mipmap flag, and never coexists with
      ETC2 RGBA. */
  lemma AlphaBufferRule(f: Options.Flags, output: string, src: Source)
    ensures var j := EncodeJob(f, output, src);
            && (j.alpha.Some? <==> f.alpha.Some? && src.hasAlpha && !f.rgba)
            && (j.alpha.Some? ==>
                  && j.alpha.value.path == f.alpha.value
                  && j.alpha.value.format == j.colour.format
                  && j.alpha.value.mipmap == j.colour.mipmap
                  && j.colour.format != Etc2Rgba)
  {
  }

  /** The encode path queues one colour unit per part, plus one alpha unit
      per part iff the alpha buffer exists: `num` or `2 * num` in all, each
      part's colour unit right before its alpha unit. */
  lemma JobTasks(f: Options.Flags, output: string, src: Source)
    ensures var j := EncodeJob(f, output, src);
            var n := |src.parts|;
            && |j.tasks| == (if j.alpha.Some? then 2 * n else n)
            && CountTarget(j.tasks, Colour) == n
            && CountTarget(j.tasks, AlphaBuffer) == (if j.alpha.Some? then n else 0)
            && (j.alpha.Some? ==> forall i :: 0 <= i < n ==>
                  && j.tasks[2 * i] == ColourUnit(j.colour.format, f.dither, src.parts[i])
                  && j.tasks[2 * i + 1] == AlphaUnit(src.parts[i]))
            && (j.alpha.None? ==> forall i :: 0 <= i < n ==>
                  j.tasks[i] == ColourUnit(j.colour.format, f.dither, src.parts[i]))
  {
    var j := EncodeJob(f, output, src);
    assert j.alpha.Some? ==> j.colour.format != Etc2Rgba;
    PlanCounts(j.colour.format, f.dither, j.alpha.Some?, src.parts);
  }

  /** Whatever `-d` says, no unit queued by a run that selected an ETC2
      format is dithered, in the encode path and the compression benchmark. */
  lemma NoDitherUnderEtc2(inv: Invocation, src: Source)
    ensures var a := Run(inv, src);
            a.Encode? && IsEtc2(a.job.colour.format) ==>
              forall k :: 0 <= k < |a.job.tasks| ==>
                a.job.tasks[k].kind.Process? ==> !a.job.tasks[k].kind.dither
    ensures var a := Run(inv, src);
            a.EncodeBenchmark? && IsEtc2(a.format) ==>
              forall k :: 0 <= k < |a.runs| ==>
                a.runs[k].kind.Process? ==> !a.runs[k].kind.dither
  {
    var a := Run(inv, src);
    if a.Encode? && IsEtc2(a.job.colour.format) {
      var f := Options.ApplyDitherPolicy(Options.Parse(inv.opts).value);
      assert a.job == EncodeJob(f, inv.operands[1], src);
      Etc2TakesPrecedence(f, src.hasAlpha);
      assert !f.dither;
      assert a.job.tasks == Plan(a.job.colour.format, f.dither, a.job.alpha.Some?, src.parts);
      PlanKinds(a.job.colour.format, f.dither, a.job.alpha.Some?, src.parts);
      forall k | 0 <= k < |a.job.tasks| && a.job.tasks[k].kind.Process?
        ensures !a.job.tasks[k].kind.dither
      {
        if a.job.tasks[k].target == Colour {
          assert a.job.tasks[k].kind == Process(RGB, f.dither);
        }
      }
    }
  }

  /** From the command line: the compression benchmark makes nine
      whole-image calls, `ProcessRGBA` iff `--rgba` was given; the others
      encode the alpha channel iff some `-a` was given, dithered iff `-d`
      was given without `--etc2`. */
  lemma BenchRunsShape(inv: Invocation, src: Source)
    requires Run(inv, src).EncodeBenchmark?
    ensures var r := Run(inv, src).runs;
            && |r| == 9
            && forall k :: 0 <= k < |r| ==>
                 && r[k].blocks == src.width * src.height / 16
                 && r[k].offset == 0
                 && r[k].stride == src.width
                 && (r[k].kind == ProcessRgba <==> Options.Rgba in inv.opts)
                 && (r[k].kind.Process? ==>
                       && (r[k].kind.channel == Alpha <==> exists i :: 0 <= i < |inv.opts| && inv.opts[i].Alpha?)
                       && (r[k].kind.dither <==> Options.Dither in inv.opts && Options.Etc2 !in inv.opts))
  {
    Options.ParseSpec(inv.opts);
  }

  lemma QuarterProduct(w: nat, h: nat)
    requires w % 4 == 0 && h % 4 == 0
    ensures w * h / 16 == w / 4 * (h / 4)
  {
    var a, b := w / 4, h / 4;
    assert w * h == 16 * (a * b);
  }

  /** For an image whose sides are multiples of 4, a benchmark call without
      `-a` is the colour unit for the benchmark's own format (`BenchFormat`)
      of one part spanning the whole image (`height / 4` block rows from
      offset 0).  Unless `--rgba` meets an opaque source, that is also the
      colour unit the encode path would queue for such a part; in that one
      case the encode path falls back to ETC2 RGB while the benchmark calls
      `ProcessRGBA`. */
  lemma BenchIsWholeImagePart(opts: seq<Options.Opt>, width: nat, height: nat, sourceAlpha: bool)
    requires Options.Parse(opts).Some?
    requires Options.Parse(opts).value.alpha.None?
    requires width % 4 == 0 && height % 4 == 0
    ensures var f := Options.ApplyDitherPolicy(Options.Parse(opts).value);
            BenchTask(f, width, height) == ColourUnit(BenchFormat(f), f.dither, Part(width, height / 4, 0))
    ensures var f := Options.ApplyDitherPolicy(Options.Parse(opts).value);
            sourceAlpha || !f.rgba ==>
              BenchTask(f, width, height)
                == ColourUnit(EncodeFormat(f, sourceAlpha), f.dither, Part(width, height / 4, 0))
    ensures var f := Options.ApplyDitherPolicy(Options.Parse(opts).value);
            !sourceAlpha && f.rgba ==>
              && BenchTask(f, width, height).kind == ProcessRgba
              && ColourUnit(EncodeFormat(f, sourceAlpha), f.dither, Part(width, height / 4, 0)).kind
                 == Process(RGB, f.dither)
  {
    QuarterProduct(width, height);
    BenchAgreesWithEncode(opts);
  }
}
