# etcpak command-line driver, modelled in Dafny

This project models the decision logic of etcpak's `main()` (Application.cpp):
how the options returned by `getopt_long` are folded into flags, the rule that
ETC2 switches dithering off, the argument-count checks and the choice between
the decode benchmark, the compression benchmark, view mode and encode mode, the
two `BlockData::Type` selection chains, the condition for a separate alpha
buffer, and the ordered list of `Process` / `ProcessRGBA` work units the encode
path hands to `TaskDispatch::Queue` for the partitions of the image.

Modules:

- `Wrappers` (wrappers.dfy): `Option`.
- `Options` (options.dfy): the option values (`Opt`), the flag record
  (`Flags`), one pass of the `switch` (`Step`), the loop (`Fold`, `Parse`), the
  dither override (`ApplyDitherPolicy`), and a reference definition of the
  resulting flags from option membership (`Expected`, `LastAlpha`).
- `Formats` (formats.dfy): `BlockType`, `Channels`, the encode-path and
  benchmark format tables and the benchmark channel.
- `Tasks` (tasks.dfy): partitions (`Part`), unit descriptors (`Task`), the
  queued plan (`Plan`) and the loop that builds it (`QueueTasks`).
- `Application` (application.dfy): the command line (`Invocation`), what the
  loaded input reports (`Source`), the resulting `Action` of `Run`, the encode
  `Job` (colour buffer, optional alpha buffer, units) and the benchmark runs.

The image loader, `DataProvider` and the codec are not part of this model. What
they report (image size, whether the source has alpha, the partitions in
`NextPart` order) enters as the `Source` parameter; the model makes no
assumption about how the partitions tile the image. `Part.lines` and
`Part.offset` are carried as the provider reports them. Only
`Application.BenchIsWholeImagePart` reads `lines` as 4-pixel block rows.

Two consequences of the code worth stating:

- `--rgba` on a source without an alpha channel is not rejected: the encode
  path falls back to ETC2 RGB (Application.cpp:219-228, `Formats.EncodeFormat`),
  and the compression benchmark still uses ETC2 RGBA (Application.cpp:185,
  `Formats.BenchFormat`).
- `Part.offset` is passed to the codec unchanged, and `Part.lines` only
  enters the block count `width / 4 * lines`; the model gives neither a unit.

## Model

| member | source | states |
|---|---|---|
| Options.LastAlpha | Application.cpp:90-92 | the kept alpha path is present iff some `-a` was given, and then it is the path of an `-a` with no `-a` after it |
| Options.FoldSpec | Application.cpp:79-118 | from any starting flags, the option loop fails iff some option is unrecognised (`'?'`); otherwise it agrees with the membership-based reference definition `Expected` |
| Options.ParseSpec | Application.cpp:48-118 | from the initial flags, each flag is set iff its option occurs, `etc2` iff `--etc2` or `--rgba` occurs, and `alpha` is the last `-a` path |
| Options.RgbaImpliesEtc2 | Application.cpp:108-111 | after a successful parse, `rgba` implies `etc2` |
| Options.Etc2SetsOnlyEtc2 | Application.cpp:105-107 | inserting `--etc2` anywhere sets `etc2` and leaves every other flag and the failure outcome unchanged |
| Options.RgbaSetsRgbaAndEtc2 | Application.cpp:108-111 | inserting `--rgba` anywhere sets both `rgba` and `etc2` and changes nothing else |
| Options.OutputChangesNothing | Application.cpp:80-116 | `-o` consumes its argument and changes no flag: inserting it leaves the parse result identical |
| Options.LastAlphaWins | Application.cpp:90-92 | an `-a` with no later `-a` decides the alpha path, whatever `-a` options came earlier |
| Options.EffectiveDither | Application.cpp:120-124 | after the override, dither is on iff `-d` was given and neither `--etc2` nor `--rgba` was; `etc2` excludes dither; no other flag changes |
| Formats.EncodeFormat | Application.cpp:218-237 | the encode table: ETC2 RGBA iff etc2, rgba and source alpha; ETC2 RGB iff etc2 without that pair; DXT1 iff dxt1 without etc2; ETC1 otherwise |
| Formats.BenchFormat | Application.cpp:185-188 | the benchmark table ignores source alpha: RGBA iff rgba, then ETC2 RGB, then DXT1, then ETC1 |
| Formats.BenchChannel | Application.cpp:183-184 | the benchmark encodes the alpha channel iff `-a` was given |
| Formats.Etc2TakesPrecedence | Application.cpp:219-233 | the encode format is an ETC2 variant iff `etc2` is set, so `--etc2` overrides `--dxt1` |
| Formats.BenchAgreesWithEncode | Application.cpp:185-188 | on parsed flags, the benchmark table equals the encode table for a source with alpha, and differs from it for an opaque source iff `--rgba` was given |
| Tasks.Plan | Application.cpp:247-272 | `num` units, or `2·num` when paired with an alpha buffer; part `i`'s colour unit sits at `i` (or `2i`) and its alpha unit right after it at `2i+1` |
| Tasks.QueueTasks | Application.cpp:247-272 | the part-by-part queueing loop produces exactly the plan |
| Tasks.PlanCounts | Application.cpp:251-270 | exactly one colour unit per part, and one alpha unit per part iff paired, none otherwise |
| Tasks.PlanSource | Application.cpp:251-270 | unit `k` was queued for part `k`, or part `k / 2` when paired: a colour unit is that part's colour unit and an alpha unit its alpha unit |
| Tasks.PlanDescribesParts | Application.cpp:255-268 | unit `k` carries the block count `width / 4 * lines`, the offset, and the width as stride of part `k` (or part `k / 2` when paired with an alpha buffer) |
| Tasks.PlanKinds | Application.cpp:251-270 | colour units call `ProcessRGBA` iff the format is ETC2 RGBA, else `Process` on RGB with the given dither; alpha units call `Process` on alpha without dither |
| Application.UsageCases | Application.cpp:59-148 | exit status 1 iff argc < 3, an option is unrecognised, benchmark mode has no operand, or another mode has fewer than two |
| Application.ModeDispatch | Application.cpp:126-213 | benchmark is checked before view and view before encode (`-b -v` is the decode benchmark); input is the first operand, output the second, used only outside benchmark mode |
| Application.AlphaBufferRule | Application.cpp:241-246 | an alpha buffer exists iff `-a` was given, the source has alpha and `--rgba` was not; it takes the `-a` path and the colour buffer's format and mipmap flag, and never coexists with ETC2 RGBA |
| Application.JobTasks | Application.cpp:239-272 | the encode path queues `num` units, or `2·num` with an alpha buffer, one colour unit per part; unpaired, unit `i` is part `i`'s colour unit; paired, unit `2i` is part `i`'s colour unit and unit `2i+1` that part's alpha unit |
| Application.NoDitherUnderEtc2 | Application.cpp:120-268 | no unit of a run that selected an ETC2 format is dithered, in the encode path or the compression benchmark, whatever `-d` says |
| Application.BenchRunsShape | Application.cpp:177-198 | a compression benchmark run makes nine whole-image calls of `width * height / 16` blocks from offset 0 with stride `width`: `ProcessRGBA` iff `--rgba` is on the command line; otherwise `Process` on the alpha channel iff some `-a` is given, dithered iff `-d` is given without `--etc2` |
| Application.BenchIsWholeImagePart | Application.cpp:189-198 | for sides that are multiples of 4 and no `-a`, a benchmark call is the colour unit, under the benchmark's own format, of one part covering the whole image; it equals the encode path's colour unit for that part unless `--rgba` meets an opaque source, where the benchmark calls `ProcessRGBA` and the encode path `Process` on RGB |

## Left out

- `getopt_long`: a foreign library. Its result is the input sequence of option values plus the operands left from `optind` on. `argc` is a separate field because bundled flags and `-a path` make it underivable from the options.
- `Usage()`, `DebugCallback`, and the `printf` diagnostics (including the ETC2 dither notice): text output only.
- `System::CPUCores` and the `TaskDispatch` worker pool: thread concurrency. Only the ordered list of queued descriptors is modelled, not their execution or `Sync()`.
- `BlockData::Process`, `ProcessRGBA`, `Decode` and `Write`: the codec and the container I/O are not part of this model. Units are descriptors of the calls, and buffers record their path, mipmap flag and format.
- `DataProvider` and `Bitmap`: partitioning, mipmap generation and pixel loading are not part of this model. Their output enters as `Source`. The flag arguments they are constructed with are recorded as `Request` and `EncodeBenchmark.notDxt1`, which hold the third constructor argument, `!dxt1`, without interpreting it.
- Benchmark timing, the median of the timing array, Mpx/s, and the `-s` MSE/RMSE/PSNR report: wall-clock time and floating point. The `stats` flag is only recorded on the `Encode` action.
- Tasks.BlockCount: `width / 4 * lines` is computed on unbounded naturals, so no fixed-width overflow is modelled. The same holds for `width * height / 16` in `Application.BenchTask`.
- Bytes per block and buffer sizes: they belong to `BlockData`, which is not part of this model.
- Disjointness of the units' output ranges: it depends on the offsets `DataProvider` computes, so it is not assumed or proved.
