/** Command-line option processing of etcpak's `main()`.

    `getopt_long` itself is a foreign library; its output is modelled as the
    sequence of option values it returns, in order, with the argument of `-a`
    and `-o` attached.  The fold below mirrors the `switch` of the option loop. */
module Options {
  import opened Wrappers

  /** One value returned by `getopt_long` for the option string "vo:a:sbmd"
      and the long options `--etc2`, `--rgba`, `--dxt1`.  `Unrecognised` is
      the `'?'` it returns for an unknown option or a missing argument. */
  datatype Opt =
    | View
    | Stats
    | Benchmark
    | Mipmap
    | Dither
    | Alpha(path: string)
    | Output(path: string)
    | Etc2
    | Rgba
    | Dxt1
    | Unrecognised

  /** The local flag variables of `main()`; `alpha` is the `const char*`
      that stays `nullptr` unless `-a` was given. */
  datatype Flags = Flags(
    viewMode: bool,
    stats: bool,
    benchmark: bool,
    mipmap: bool,
    dither: bool,
    etc2: bool,
    rgba: bool,
    dxt1: bool,
    alpha: Option<string>)

  /** The values the flags are initialised with before the option loop. */
  const Initial: Flags := Flags(false, false, false, false, false, false, false, false, None)

  /** One pass through the `switch`: `None` is the early `return 1` on `'?'`. */
  function Step(f: Flags, o: Opt): Option<Flags>
  {
    match o
    case Unrecognised => None
    case View => Some(f.(viewMode := true))
    case Alpha(p) => Some(f.(alpha := Some(p)))
    case Stats => Some(f.(stats := true))
    case Benchmark => Some(f.(benchmark := true))
    case Mipmap => Some(f.(mipmap := true))
    case Dither => Some(f.(dither := true))
    case Etc2 => Some(f.(etc2 := true))
    case Rgba => Some(f.(rgba := true, etc2 := true))
    case Dxt1 => Some(f.(dxt1 := true))
    case Output(_) => Some(f)
  }

  /** The option loop, run from flags `f` over the remaining options. */
  function Fold(f: Flags, opts: seq<Opt>): Option<Flags>
    decreases |opts|
  {
    if |opts| == 0 then Some(f)
    else
      match Step(f, opts[0])
      case None => None
      case Some(g) => Fold(g, opts[1..])
  }

  /** The whole option loop, starting from the initial flag values. */
  function Parse(opts: seq<Opt>): Option<Flags>
  {
    Fold(Initial, opts)
  }

  /** The dither override that follows the option loop: ETC2 switches
      dithering off. */
  function ApplyDitherPolicy(f: Flags): Flags
  {
    if f.etc2 && f.dither then f.(dither := false) else f
  }

  /** Reference definition of "the path of the last `-a`", scanning from the
      end: it is the path of the rightmost `Alpha` option, if there is one. */
  function LastAlpha(opts: seq<Opt>): (r: Option<string>)
    ensures r.Some? <==> exists i :: 0 <= i < |opts| && opts[i].Alpha?
    ensures r.Some? ==> exists i :: 0 <= i < |opts| && opts[i] == Alpha(r.value)
                                    && forall j :: i < j < |opts| ==> !opts[j].Alpha?
  {
    if |opts| == 0 then None
    else if opts[|opts| - 1].Alpha? then Some(opts[|opts| - 1].path)
    else LastAlpha(opts[..|opts| - 1])
  }

  /** Splitting off the first option: a later `-a` overrides it. */
  lemma {:induction false} LastAlphaFront(opts: seq<Opt>)
    requires |opts| > 0
    ensures LastAlpha(opts) ==
              if LastAlpha(opts[1..]).Some? then LastAlpha(opts[1..])
              else if opts[0].Alpha? then Some(opts[0].path)
              else None
    decreases |opts|
  {
    var n := |opts|;
    if n == 1 {
      assert opts[1..] == [];
    } else if !opts[n - 1].Alpha? {
      assert opts[1..][..n - 2] == opts[..n - 1][1..];
      LastAlphaFront(opts[..n - 1]);
    }
  }

  /** The last `-a` of a concatenation is the last one of its tail, if any. */
  lemma {:induction false} LastAlphaAppend(a: seq<Opt>, b: seq<Opt>)
    ensures LastAlpha(a + b) == if LastAlpha(b).Some? then LastAlpha(b) else LastAlpha(a)
    decreases |b|
  {
    if |b| == 0 {
      assert a + b == a;
    } else {
      var n := |b|;
      assert (a + b)[..|a + b| - 1] == a + b[..n - 1];
      if !b[n - 1].Alpha? {
        LastAlphaAppend(a, b[..n - 1]);
      }
    }
  }

  /** Reference definition of the flags the option loop should leave behind
      when started from `f`: each flag is set iff it was set before or an
      option sets it, and `alpha` holds the last `-a` path, if any. */
  function Expected(f: Flags, opts: seq<Opt>): Flags
  {
    Flags(
      f.viewMode || View in opts,
      f.stats || Stats in opts,
      f.benchmark || Benchmark in opts,
      f.mipmap || Mipmap in opts,
      f.dither || Dither in opts,
      f.etc2 || Etc2 in opts || Rgba in opts,
      f.rgba || Rgba in opts,
      f.dxt1 || Dxt1 in opts,
      if LastAlpha(opts).Some? then LastAlpha(opts) else f.alpha)
  }

  /** What one recognised option does to each flag. */
  lemma StepSpec(f: Flags, o: Opt)
    requires !o.Unrecognised?
    ensures Step(f, o).Some?
    ensures var g := Step(f, o).value;
            && g.viewMode == (f.viewMode || o == View)
            && g.stats == (f.stats || o == Stats)
            && g.benchmark == (f.benchmark || o == Benchmark)
            && g.mipmap == (f.mipmap || o == Mipmap)
            && g.dither == (f.dither || o == Dither)
            && g.etc2 == (f.etc2 || o == Etc2 || o == Rgba)
            && g.rgba == (f.rgba || o == Rgba)
            && g.dxt1 == (f.dxt1 || o == Dxt1)
            && g.alpha == if o.Alpha? then Some(o.path) else f.alpha
  {
    match o {
      case View =>
      case Stats =>
      case Benchmark =>
      case Mipmap =>
      case Dither =>
      case Alpha(_) =>
      case Output(_) =>
      case Etc2 =>
      case Rgba =>
      case Dxt1 =>
    }
  }

  /** One recognised option followed by the rest is the same, for the
      reference definition, as starting the rest from the stepped flags. */
  lemma ExpectedStep(f: Flags, opts: seq<Opt>)
    requires |opts| > 0 && !opts[0].Unrecognised?
    ensures Expected(Step(f, opts[0]).value, opts[1..]) == Expected(f, opts)
  {
    assert opts == [opts[0]] + opts[1..];
    StepSpec(f, opts[0]);
    LastAlphaFront(opts);
  }

  /** The option loop from any starting flags fails exactly when some option
      is unrecognised, and otherwise agrees with the reference definition. */
  lemma {:induction false} FoldSpec(f: Flags, opts: seq<Opt>)
    ensures Fold(f, opts).None? <==> Unrecognised in opts
    ensures Fold(f, opts).Some? ==> Fold(f, opts).value == Expected(f, opts)
    decreases |opts|
  {
    if |opts| > 0 {
      assert opts == [opts[0]] + opts[1..];
      if !opts[0].Unrecognised? {
        FoldSpec(Step(f, opts[0]).value, opts[1..]);
        ExpectedStep(f, opts);
      }
    }
  }

  /** The option loop characterised by option membership alone. */
  lemma ParseSpec(opts: seq<Opt>)
    ensures Parse(opts).None? <==> Unrecognised in opts
    ensures Parse(opts).Some? ==>
              var g := Parse(opts).value;
              && g.viewMode == (View in opts)
              && g.stats == (Stats in opts)
              && g.benchmark == (Benchmark in opts)
              && g.mipmap == (Mipmap in opts)
              && g.dither == (Dither in opts)
              && g.etc2 == (Etc2 in opts || Rgba in opts)
              && g.rgba == (Rgba in opts)
              && g.dxt1 == (Dxt1 in opts)
              && g.alpha == LastAlpha(opts)
  {
    FoldSpec(Initial, opts);
  }

  /** `--rgba` always brings `etc2` with it. */
  lemma RgbaImpliesEtc2(opts: seq<Opt>)
    ensures Parse(opts).Some? && Parse(opts).value.rgba ==> Parse(opts).value.etc2
  {
    ParseSpec(opts);
  }

  /** Inserting `--etc2` anywhere sets `etc2` and changes nothing else. */
  lemma Etc2SetsOnlyEtc2(a: seq<Opt>, b: seq<Opt>)
    ensures Parse(a + [Etc2] + b).Some? <==> Parse(a + b).Some?
    ensures Parse(a + b).Some? ==>
              Parse(a + [Etc2] + b).value == Parse(a + b).value.(etc2 := true)
  {
    ParseSpec(a + [Etc2] + b);
    ParseSpec(a + b);
    LastAlphaAppend(a + [Etc2], b);
    LastAlphaAppend(a, b);
    assert (a + [Etc2])[..|a + [Etc2]| - 1] == a;
  }

  /** Inserting `--rgba` anywhere sets both `rgba` and `etc2` and changes
      nothing else. */
  lemma RgbaSetsRgbaAndEtc2(a: seq<Opt>, b: seq<Opt>)
    ensures Parse(a + [Rgba] + b).Some? <==> Parse(a + b).Some?
    ensures Parse(a + b).Some? ==>
              Parse(a + [Rgba] + b).value == Parse(a + b).value.(rgba := true, etc2 := true)
  {
    ParseSpec(a + [Rgba] + b);
    ParseSpec(a + b);
    LastAlphaAppend(a + [Rgba], b);
    LastAlphaAppend(a, b);
    assert (a + [Rgba])[..|a + [Rgba]| - 1] == a;
  }

  /** `-o` consumes its argument and changes no flag. */
  lemma OutputChangesNothing(a: seq<Opt>, p: string, b: seq<Opt>)
    ensures Parse(a + [Output(p)] + b) == Parse(a + b)
  {
    ParseSpec(a + [Output(p)] + b);
    ParseSpec(a + b);
    LastAlphaAppend(a + [Output(p)], b);
    LastAlphaAppend(a, b);
    assert (a + [Output(p)])[..|a + [Output(p)]| - 1] == a;
  }

  /** The last `-a` wins: with no `-a` after it, its path is the one kept,
      whatever `-a` options came before. */
  lemma LastAlphaWins(a: seq<Opt>, p: string, b: seq<Opt>)
    requires forall i :: 0 <= i < |b| ==> !b[i].Alpha?
    ensures Parse(a + [Alpha(p)] + b).Some? <==> Parse(a + b).Some?
    ensures Parse(a + b).Some? ==>
              Parse(a + [Alpha(p)] + b).value == Parse(a + b).value.(alpha := Some(p))
  {
    ParseSpec(a + [Alpha(p)] + b);
    ParseSpec(a + b);
    LastAlphaAppend(a + [Alpha(p)], b);
  }

  /** After the override, dithering is on exactly when `-d` was given and
      neither `--etc2` nor `--rgba` was. */
  lemma EffectiveDither(opts: seq<Opt>)
    ensures Parse(opts).Some? ==>
              var g := ApplyDitherPolicy(Parse(opts).value);
              && (g.dither <==> Dither in opts && Etc2 !in opts && Rgba !in opts)
              && (g.etc2 ==> !g.dither)
              && g == Parse(opts).value.(dither := g.dither)
  {
    ParseSpec(opts);
  }
}
