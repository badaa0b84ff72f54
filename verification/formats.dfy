/** Target-format selection: the two `BlockData::Type` decision chains of
    `main()` (the encode path and the compression benchmark). */
module Formats {
  import Options

  /** `BlockData::Type`. */
  datatype BlockType = Etc1 | Etc2Rgb | Etc2Rgba | Dxt1

  /** `Channels`: which channel group a `Process` call encodes. */
  datatype Channels = RGB | Alpha

  predicate IsEtc2(t: BlockType)
  {
    t == Etc2Rgb || t == Etc2Rgba
  }

  /** Format of the encode path, which also looks at whether the source
      image has an alpha channel. */
  function EncodeFormat(f: Options.Flags, sourceAlpha: bool): (t: BlockType)
    ensures t == Etc2Rgba <==> f.etc2 && f.rgba && sourceAlpha
    ensures t == Etc2Rgb <==> f.etc2 && !(f.rgba && sourceAlpha)
    ensures t == Dxt1 <==> !f.etc2 && f.dxt1
    ensures t == Etc1 <==> !f.etc2 && !f.dxt1
  {
    if f.etc2 then
      if f.rgba && sourceAlpha then Etc2Rgba else Etc2Rgb
    else if f.dxt1 then Dxt1
    else Etc1
  }

  /** Format of the compression benchmark, which never looks at the source
      alpha channel. */
  function BenchFormat(f: Options.Flags): (t: BlockType)
    ensures t == Etc2Rgba <==> f.rgba
    ensures t == Etc2Rgb <==> !f.rgba && f.etc2
    ensures t == Dxt1 <==> !f.rgba && !f.etc2 && f.dxt1
    ensures t == Etc1 <==> !f.rgba && !f.etc2 && !f.dxt1
  {
    if f.rgba then Etc2Rgba
    else if f.etc2 then Etc2Rgb
    else if f.dxt1 then Dxt1
    else Etc1
  }

  /** Channel group of the compression benchmark: alpha iff `-a` was given. */
  function BenchChannel(f: Options.Flags): (c: Channels)
    ensures c == Alpha <==> f.alpha.Some?
  {
    if f.alpha.Some? then Alpha else RGB
  }

  /** The encode-path format is an ETC2 variant exactly when `etc2` is set,
      so `--etc2` (or `--rgba`) takes precedence over `--dxt1`. */
  lemma Etc2TakesPrecedence(f: Options.Flags, sourceAlpha: bool)
    ensures IsEtc2(EncodeFormat(f, sourceAlpha)) <==> f.etc2
    ensures f.etc2 && f.dxt1 ==> EncodeFormat(f, sourceAlpha) != Dxt1
  {
  }

  /** On flags produced by the option loop (where `rgba` implies `etc2`) the
      benchmark table is the encode table for a source with alpha, and it
      differs from the encode table for an opaque source exactly when
      `--rgba` was given. */
  lemma BenchAgreesWithEncode(opts: seq<Options.Opt>)
    requires Options.Parse(opts).Some?
    ensures var f := Options.ApplyDitherPolicy(Options.Parse(opts).value);
            && BenchFormat(f) == EncodeFormat(f, true)
            && (BenchFormat(f) != EncodeFormat(f, false) <==> f.rgba)
  {
    Options.RgbaImpliesEtc2(opts);
  }
}
