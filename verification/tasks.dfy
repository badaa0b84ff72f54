/** The task-queuing loop of the encode path: one work unit per partition
    for the colour buffer and, when a separate alpha buffer exists, one more
    for it.  Units are descriptors of the `BlockData::Process` /
    `ProcessRGBA` calls the queued closures make; encoding itself is not
    modelled. */
module Tasks {
  import opened Formats

  /** One partition as `DataProvider::NextPart` hands it out: the width of
      its level, its `lines` and its destination `offset`, all as the
      provider reports them. */
  datatype Part = Part(width: nat, lines: nat, offset: nat)

  /** The block buffer a unit writes into. */
  datatype Target = Colour | AlphaBuffer

  /** Which codec entry point a unit calls. */
  datatype Kind = ProcessRgba | Process(channel: Channels, dither: bool)

  /** One queued unit: the arguments of its `Process*` call. */
  datatype Task = Task(target: Target, kind: Kind, blocks: nat, offset: nat, stride: nat)

  /** Block count handed to the codec for a part: `width / 4 * lines`. */
  function BlockCount(p: Part): nat
  {
    p.width / 4 * p.lines
  }

  /** The colour-buffer unit for a part. */
  function ColourUnit(t: BlockType, dither: bool, p: Part): Task
  {
    if t == Etc2Rgba then Task(Colour, ProcessRgba, BlockCount(p), p.offset, p.width)
    else Task(Colour, Process(RGB, dither), BlockCount(p), p.offset, p.width)
  }

  /** The alpha-buffer unit for a part: alpha channel, never dithered. */
  function AlphaUnit(p: Part): Task
  {
    Task(AlphaBuffer, Process(Alpha, false), BlockCount(p), p.offset, p.width)
  }

  /** Whether a part also gets an alpha unit: only on the non-RGBA branch,
      and only when the alpha buffer exists. */
  predicate Paired(t: BlockType, withAlpha: bool)
  {
    withAlpha && t != Etc2Rgba
  }

  /** The units one iteration of the loop queues for one part. */
  function PartUnits(t: BlockType, dither: bool, withAlpha: bool, p: Part): seq<Task>
  {
    if t == Etc2Rgba then [ColourUnit(t, dither, p)]
    else if withAlpha then [ColourUnit(t, dither, p), AlphaUnit(p)]
    else [ColourUnit(t, dither, p)]
  }

  /** The ordered list of units queued for the parts, in queueing order:
      for each part its colour unit, immediately followed by its alpha unit
      when there is one. */
  function Plan(t: BlockType, dither: bool, withAlpha: bool, parts: seq<Part>): (r: seq<Task>)
    ensures !Paired(t, withAlpha) ==> |r| == |parts|
    ensures Paired(t, withAlpha) ==> |r| == 2 * |parts|
    ensures !Paired(t, withAlpha) ==>
              forall i :: 0 <= i < |parts| ==> r[i] == ColourUnit(t, dither, parts[i])
    ensures Paired(t, withAlpha) ==>
              forall i :: 0 <= i < |parts| ==>
                r[2 * i] == ColourUnit(t, dither, parts[i]) && r[2 * i + 1] == AlphaUnit(parts[i])
    decreases |parts|
  {
    if |parts| == 0 then []
    else
      Plan(t, dither, withAlpha, parts[..|parts| - 1])
        + PartUnits(t, dither, withAlpha, parts[|parts| - 1])
  }

  /** The loop of `main()` that queues the units part by part. */
  method QueueTasks(t: BlockType, dither: bool, withAlpha: bool, parts: seq<Part>)
    returns (queued: seq<Task>)
    ensures queued == Plan(t, dither, withAlpha, parts)
  {
    queued := [];
    var i := 0;
    while i < |parts|
      invariant 0 <= i <= |parts|
      invariant queued == Plan(t, dither, withAlpha, parts[..i])
    {
      var part := parts[i];
      assert parts[..i + 1][..i] == parts[..i];
      if t == Etc2Rgba {
        queued := queued + [ColourUnit(t, dither, part)];
      } else {
        queued := queued + [ColourUnit(t, dither, part)];
        if withAlpha {
          queued := queued + [AlphaUnit(part)];
        }
      }
      i := i + 1;
    }
    assert parts[..i] == parts;
  }

  /** Number of units in `ts` writing into target `b`. */
  function CountTarget(ts: seq<Task>, b: Target): nat
  {
    if |ts| == 0 then 0
    else CountTarget(ts[..|ts| - 1], b) + (if ts[|ts| - 1].target == b then 1 else 0)
  }

  lemma {:induction false} CountTargetAppend(a: seq<Task>, c: seq<Task>, b: Target)
    ensures CountTarget(a + c, b) == CountTarget(a, b) + CountTarget(c, b)
    decreases |c|
  {
    if |c| == 0 {
      assert a + c == a;
    } else {
      assert (a + c)[..|a + c| - 1] == a + c[..|c| - 1];
      CountTargetAppend(a, c[..|c| - 1], b);
    }
  }

  /** Units one part contributes to each target. */
  lemma PartUnitsCounts(t: BlockType, dither: bool, withAlpha: bool, p: Part)
    ensures CountTarget(PartUnits(t, dither, withAlpha, p), Colour) == 1
    ensures CountTarget(PartUnits(t, dither, withAlpha, p), AlphaBuffer)
            == if Paired(t, withAlpha) then 1 else 0
  {
    var c := ColourUnit(t, dither, p);
    assert [c][..0] == [];
    assert CountTarget([c], Colour) == 1;
    assert CountTarget([c], AlphaBuffer) == 0;
    if Paired(t, withAlpha) {
      assert [c, AlphaUnit(p)][..1] == [c];
    }
  }

  /** Exactly one colour unit per part, and one alpha unit per part when
      parts are paired, none otherwise. */
  lemma {:induction false} PlanCounts(t: BlockType, dither: bool, withAlpha: bool, parts: seq<Part>)
    ensures CountTarget(Plan(t, dither, withAlpha, parts), Colour) == |parts|
    ensures CountTarget(Plan(t, dither, withAlpha, parts), AlphaBuffer)
            == if Paired(t, withAlpha) then |parts| else 0
    decreases |parts|
  {
    if |parts| > 0 {
      var init := parts[..|parts| - 1];
      var units := PartUnits(t, dither, withAlpha, parts[|parts| - 1]);
      PlanCounts(t, dither, withAlpha, init);
      PartUnitsCounts(t, dither, withAlpha, parts[|parts| - 1]);
      CountTargetAppend(Plan(t, dither, withAlpha, init), units, Colour);
      CountTargetAppend(Plan(t, dither, withAlpha, init), units, AlphaBuffer);
    }
  }

  /** A unit carries a part's block count `width / 4 * lines`, its offset,
      and its width as stride. */
  predicate Describes(u: Task, p: Part)
  {
    u.blocks == BlockCount(p) && u.offset == p.offset && u.stride == p.width
  }

  /** The part a queued unit was made for: colour units are that part's
      colour unit and alpha units its alpha unit. */
  lemma PlanSource(t: BlockType, dither: bool, withAlpha: bool, parts: seq<Part>, k: nat)
    returns (j: nat)
    requires k < |Plan(t, dither, withAlpha, parts)|
    ensures j < |parts| && j == if Paired(t, withAlpha) then k / 2 else k
    ensures var u := Plan(t, dither, withAlpha, parts)[k];
            && (u.target == Colour ==> u == ColourUnit(t, dither, parts[j]))
            && (u.target == AlphaBuffer ==> u == AlphaUnit(parts[j]))
  {
    var r := Plan(t, dither, withAlpha, parts);
    if Paired(t, withAlpha) {
      j := k / 2;
      if k == 2 * j {
        assert r[2 * j] == ColourUnit(t, dither, parts[j]);
      } else {
        assert r[2 * j + 1] == AlphaUnit(parts[j]);
      }
    } else {
      j := k;
      assert r[k] == ColourUnit(t, dither, parts[k]);
    }
  }

  /** Unit `k` describes the part it was queued for: part `k`, or part
      `k / 2` when each part is paired with an alpha unit. */
  lemma PlanDescribesParts(t: BlockType, dither: bool, withAlpha: bool, parts: seq<Part>)
    ensures var r := Plan(t, dither, withAlpha, parts);
            forall k :: 0 <= k < |r| ==>
              Describes(r[k], parts[if Paired(t, withAlpha) then k / 2 else k])
  {
    var r := Plan(t, dither, withAlpha, parts);
    forall k | 0 <= k < |r|
      ensures Describes(r[k], parts[if Paired(t, withAlpha) then k / 2 else k])
    {
      var j := PlanSource(t, dither, withAlpha, parts, k);
      assert Describes(r[k], parts[j]);
    }
  }

  /** Colour units take the RGBA entry point iff the format is ETC2 RGBA,
      and otherwise encode the RGB channel with the given dither; alpha
      units encode the alpha channel without dithering. */
  lemma PlanKinds(t: BlockType, dither: bool, withAlpha: bool, parts: seq<Part>)
    ensures var r := Plan(t, dither, withAlpha, parts);
            forall k :: 0 <= k < |r| ==>
              && (r[k].target == Colour && t == Etc2Rgba ==> r[k].kind == ProcessRgba)
              && (r[k].target == Colour && t != Etc2Rgba ==> r[k].kind == Process(RGB, dither))
              && (r[k].target == AlphaBuffer ==> r[k].kind == Process(Alpha, false))
  {
    var r := Plan(t, dither, withAlpha, parts);
    forall k | 0 <= k < |r|
      ensures && (r[k].target == Colour && t == Etc2Rgba ==> r[k].kind == ProcessRgba)
              && (r[k].target == Colour && t != Etc2Rgba ==> r[k].kind == Process(RGB, dither))
              && (r[k].target == AlphaBuffer ==> r[k].kind == Process(Alpha, false))
    {
      var j := PlanSource(t, dither, withAlpha, parts, k);
    }
  }
}
