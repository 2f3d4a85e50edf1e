/** UVSequencer: a material animator that either scrolls texture coordinates,
    steps through the frames of a sprite sheet, or swaps whole texture images
    from a numbered file sequence. The sequence timer and the in-view test
    are inputs; material writes are returned as a list of effects. */
module Sequencer {
  import opened Base
  import opened Text

  datatype SeqType = UScroll | VScroll | UVFrame | SwapImage

  function TypeValue(t: SeqType): int
  {
    match t
    case UScroll => 0
    case VScroll => 1
    case UVFrame => 2
    case SwapImage => 3
  }

  /** The enumerator with value `v`; the attribute is a plain int, so other
      values select no behaviour at all. */
  function TypeOf(v: int): (r: Option<SeqType>)
    ensures r.Some? <==> 0 <= v <= 3
    ensures r.Some? ==> TypeValue(r.value) == v
  {
    if v == 0 then Some(UScroll)
    else if v == 1 then Some(VScroll)
    else if v == 2 then Some(UVFrame)
    else if v == 3 then Some(SwapImage)
    else None
  }

  lemma TypeValueRoundTrip(t: SeqType)
    ensures 0 <= TypeValue(t) <= 3
    ensures TypeOf(TypeValue(t)) == Some(t)
  {
  }

  /** The serialised configuration of a sequencer. */
  datatype Config = Config(
    seqType: int,
    repeat: bool,
    uScrollSpeed: real,
    vScrollSpeed: real,
    timerFraction: real,
    rows: int,
    cols: int,
    numFrames: int,
    timePerFrame: U32,
    swapTUenum: U32,
    swapBegIdx: int,
    swapEndIdx: int,
    swapPrefixName: string,
    swapFileExt: string,
    swapDecFormat: string)

  /** A sequencer: its configuration, its own `enabled` flag, whether the
      fixed-update event is delivered to it (the update event mask), and the
      status counters. */
  datatype UVSequencer = UVSequencer(
    config: Config,
    enabled: bool,
    updating: bool,
    curFrameIdx: int,
    curImageIdx: int,
    uOffset: real,
    vOffset: real,
    decFormat: Option<DecFormat>)

  /** What a step writes to the material. */
  datatype Effect =
    | SetUOffset(u: real)
    | SetVOffset(v: real)
    | SetCurRowCol(row: int, col: int)
    | SetTexture(unit: U32, name: string)

  /** A freshly constructed sequencer with loaded attributes: counters zero,
      no format selected, fixed update requested. */
  function Create(config: Config, enabled: bool): (q: UVSequencer)
    ensures q.config == config && q.enabled == enabled && q.updating
    ensures q.curFrameIdx == 0 && q.curImageIdx == 0 && q.decFormat.None?
  {
    UVSequencer(config, enabled, true, 0, 0, 0.0, 0.0, None)
  }

  // ---------------------------------------------------------------------
  // Enable toggle

  /** UVSequencer::SetEnabled: reports whether anything changed. */
  function SetEnabled(q: UVSequencer, enable: bool): (r: (UVSequencer, bool))
    ensures r.1 <==> enable != q.enabled
    ensures !r.1 ==> r.0 == q
    ensures r.1 ==> r.0 == q.(enabled := enable, updating := enable)
  {
    if enable == q.enabled then (q, false)
    else (q.(enabled := enable, updating := enable), true)
  }

  /** Asking twice for the same flag changes nothing the second time. */
  lemma SetEnabledIdempotent(q: UVSequencer, enable: bool)
    ensures var q1 := SetEnabled(q, enable).0;
      SetEnabled(q1, enable) == (q1, false) && q1.enabled == enable
  {
  }

  // ---------------------------------------------------------------------
  // Frame grid

  /** C's `/` on int: the quotient truncated toward zero. */
  function TruncDiv(a: int, b: int): int
    requires b != 0
  {
    if (a >= 0) == (b > 0) then (if a >= 0 then a / b else (-a) / (-b))
    else -((if a >= 0 then a else -a) / (if b > 0 then b else -b))
  }

  /** The row and column of frame `idx` in a sheet `cols` frames wide, with
      C's truncating `/` and `%`. */
  function RowCol(idx: int, cols: int): (rc: (int, int))
    requires cols != 0
    ensures rc.0 * cols + rc.1 == idx
    ensures idx >= 0 ==> 0 <= rc.1 && (cols > 0 ==> rc.1 < cols) && (cols < 0 ==> rc.1 < -cols)
    ensures idx < 0 ==> rc.1 <= 0 && (cols > 0 ==> -cols < rc.1) && (cols < 0 ==> cols < rc.1)
  {
    var row := TruncDiv(idx, cols);
    (row, idx - row * cols)
  }

  /** For a frame inside a `rows` by `cols` sheet the grid position is
      inside the sheet, and it is the unique one. */
  lemma RowColInSheet(idx: int, rows: int, cols: int)
    requires 0 < cols && 0 <= idx < rows * cols
    ensures var rc := RowCol(idx, cols);
      0 <= rc.0 < rows && 0 <= rc.1 < cols && rc == (idx / cols, idx % cols)
  {
    var q := idx / cols;
    var m := idx % cols;
    assert q * cols + m == idx && 0 <= m < cols;
    assert TruncDiv(idx, cols) == q;
    assert RowCol(idx, cols) == (q, m);
    if q < 0 {
      MulMonotone(q, -1, cols);
    } else if q >= rows {
      MulMonotone(rows, q, cols);
    }
  }

  function ShowFrame(q: UVSequencer): (e: Effect)
    requires q.config.cols != 0
  {
    var rc := RowCol(q.curFrameIdx, q.config.cols);
    SetCurRowCol(rc.0, rc.1)
  }

  /** The next expiry of a frame sequence displays a frame (and so divides
      by the column count). */
  predicate ShowsFrame(q: UVSequencer, expired: bool)
  {
    expired && (q.curFrameIdx + 1 < q.config.numFrames || q.config.repeat)
  }

  /** UVSequencer::UpdateUVFrame. `elapsedMs` is the sequence timer's reading. */
  function UpdateUVFrame(q: UVSequencer, elapsedMs: U32): (r: (UVSequencer, seq<Effect>))
    requires ShowsFrame(q, elapsedMs > q.config.timePerFrame) ==> q.config.cols != 0
    // timer not expired: nothing happens
    ensures elapsedMs <= q.config.timePerFrame ==> r == (q, [])
    // only the frame index and the update mask change, and the mask only stops
    ensures r.0 == q.(curFrameIdx := r.0.curFrameIdx, updating := r.0.updating)
    ensures r.0.updating ==> q.updating
    // a displayed frame is below the frame count, or frame 0 after a wrap
    ensures |r.1| <= 1
    ensures |r.1| == 1 ==>
      && ShowsFrame(q, elapsedMs > q.config.timePerFrame) && r.0.config.cols != 0
      && r.1[0] == ShowFrame(r.0)
      && (0 <= q.curFrameIdx ==> 0 <= r.0.curFrameIdx < q.config.numFrames || r.0.curFrameIdx == 0)
      && (r.0.curFrameIdx == q.curFrameIdx + 1 || (r.0.curFrameIdx == 0 && q.config.repeat))
    // running off the end: wrap to 0 when repeating, otherwise stop with the
    // index left at the frame count
    ensures elapsedMs > q.config.timePerFrame && q.curFrameIdx + 1 >= q.config.numFrames ==>
      if q.config.repeat then r.0.curFrameIdx == 0 && r.0.updating == q.updating && |r.1| == 1
      else r.0.curFrameIdx == q.curFrameIdx + 1 && !r.0.updating && r.1 == []
    ensures elapsedMs > q.config.timePerFrame && q.curFrameIdx + 1 < q.config.numFrames ==>
      r.0.curFrameIdx == q.curFrameIdx + 1 && r.0.updating == q.updating && |r.1| == 1
  {
    if elapsedMs > q.config.timePerFrame then
      var idx := q.curFrameIdx + 1;
      if idx < q.config.numFrames then
        var q' := q.(curFrameIdx := idx);
        (q', [ShowFrame(q')])
      else if q.config.repeat then
        var q' := q.(curFrameIdx := 0);
        (q', [ShowFrame(q')])
      else
        (q.(curFrameIdx := idx, updating := false), [])
    else (q, [])
  }

  // ---------------------------------------------------------------------
  // Image swap

  /** The texture file of image `idx`: prefix, formatted index, '.', extension. */
  function TextureName(prefix: string, f: DecFormat, idx: int, ext: string): string
  {
    prefix + Sprintf(f, idx) + "." + ext
  }

  /** The name splits back into its parts: the prefix, the extension after
      the final '.', and a middle that reads back as the image index. */
  lemma TextureNameIndex(prefix: string, f: DecFormat, idx: int, ext: string)
    ensures var name := TextureName(prefix, f, idx, ext);
      && StartsWith(name, prefix)
      && name[|name| - |ext|..] == ext
      && name[|name| - |ext| - 1] == '.'
      && ToInt(name[|prefix|..|name| - |ext| - 1]) == idx
  {
    var m := Sprintf(f, idx);
    assert TextureName(prefix, f, idx, ext) == prefix + m + "." + ext;
    SprintfToIntRoundTrip(f, idx);
    NameSplits(prefix, m, ext, idx);
  }

  /** A name built as prefix, middle, '.', extension splits back into them. */
  lemma NameSplits(p: string, m: string, e: string, n: int)
    requires ToInt(m) == n
    ensures var name := p + m + "." + e;
      && StartsWith(name, p)
      && name[|name| - |e|..] == e
      && name[|name| - |e| - 1] == '.'
      && ToInt(name[|p|..|name| - |e| - 1]) == n
  {
    NameParts(p, m, e);
  }

  /** The three parts of `p + m + "." + e` are found again by position. */
  lemma NameParts(p: string, m: string, e: string)
    ensures var name := p + m + "." + e;
      && StartsWith(name, p)
      && name[|name| - |e|..] == e
      && name[|name| - |e| - 1] == '.'
      && name[|p|..|name| - |e| - 1] == m
  {
    var name := p + m + "." + e;
    assert name == p + (m + ("." + e));
    assert name[..|p|] == p;
    assert name[|p|..] == m + ("." + e);
    assert (m + ("." + e))[..|m|] == m;
    assert name[|name| - |e|..] == e;
  }

  /** UVSequencer::UpdateSwapImageTexture: bind the current image. */
  function ShowImage(q: UVSequencer): (e: Effect)
    requires q.decFormat.Some?
    ensures e.SetTexture? && e.unit == q.config.swapTUenum
    ensures e.name == TextureName(q.config.swapPrefixName, q.decFormat.value, q.curImageIdx, q.config.swapFileExt)
  {
    SetTexture(q.config.swapTUenum,
               TextureName(q.config.swapPrefixName, q.decFormat.value, q.curImageIdx, q.config.swapFileExt))
  }

  predicate ShowsImage(q: UVSequencer, expired: bool)
  {
    expired && (q.curImageIdx + 1 < q.config.swapEndIdx || q.config.repeat)
  }

  /** UVSequencer::UpdateSwapImage. */
  function UpdateSwapImage(q: UVSequencer, elapsedMs: U32): (r: (UVSequencer, seq<Effect>))
    requires ShowsImage(q, elapsedMs > q.config.timePerFrame) ==> q.decFormat.Some?
    ensures elapsedMs <= q.config.timePerFrame ==> r == (q, [])
    ensures r.0 == q.(curImageIdx := r.0.curImageIdx, updating := r.0.updating)
    ensures r.0.updating ==> q.updating
    // a displayed image is the next one below the end index, or the first
    // one after a wrap
    ensures |r.1| <= 1
    ensures |r.1| == 1 ==>
      && ShowsImage(q, elapsedMs > q.config.timePerFrame) && r.0.decFormat.Some?
      && r.1[0] == ShowImage(r.0)
      && ((r.0.curImageIdx == q.curImageIdx + 1 && r.0.curImageIdx < q.config.swapEndIdx)
          || (r.0.curImageIdx == q.config.swapBegIdx && q.config.repeat))
    ensures elapsedMs > q.config.timePerFrame && q.curImageIdx + 1 >= q.config.swapEndIdx ==>
      if q.config.repeat then r.0.curImageIdx == q.config.swapBegIdx && r.0.updating == q.updating && |r.1| == 1
      else r.0.curImageIdx == q.curImageIdx + 1 && !r.0.updating && r.1 == []
    ensures elapsedMs > q.config.timePerFrame && q.curImageIdx + 1 < q.config.swapEndIdx ==>
      r.0.curImageIdx == q.curImageIdx + 1 && r.0.updating == q.updating && |r.1| == 1
  {
    if elapsedMs > q.config.timePerFrame then
      var idx := q.curImageIdx + 1;
      if idx < q.config.swapEndIdx then
        var q' := q.(curImageIdx := idx);
        (q', [ShowImage(q')])
      else if q.config.repeat then
        var q' := q.(curImageIdx := q.config.swapBegIdx);
        (q', [ShowImage(q')])
      else
        (q.(curImageIdx := idx, updating := false), [])
    else (q, [])
  }

  /** UVSequencer::InitSwapDecFormat: start at the first image and choose the
      conversion. A leading '0' asks for zero padding and the rest of the
      string is the width; otherwise the whole string is the width. */
  function InitSwapDecFormat(q: UVSequencer): (r: UVSequencer)
    ensures r == q.(curImageIdx := q.config.swapBegIdx, decFormat := r.decFormat)
    ensures var s := q.config.swapDecFormat;
      r.decFormat == Some(if StartsWith(s, "0") then DecFormatFor(ToInt(s[1..]), true)
                          else DecFormatFor(ToInt(s), false))
  {
    var s := q.config.swapDecFormat;
    var f := if StartsWith(s, "0") then DecFormatFor(ToInt(s[1..]), true) else DecFormatFor(ToInt(s), false);
    q.(curImageIdx := q.config.swapBegIdx, decFormat := Some(f))
  }

  /** UVSequencer::GetDecFormat, as the literal format string it returns. */
  function GetDecFormat(idx: int, leadingZero: bool): (s: string)
    ensures idx == 1 ==> s == "%1d"
    ensures idx == 2 ==> s == (if leadingZero then "%02d" else "%2d")
    ensures idx != 1 && idx != 2 ==> s == (if leadingZero then "%03d" else "%3d")
    ensures ParseFormatString(s) == Some(DecFormatFor(idx, leadingZero))
  {
    var s := if idx == 1 then "%1d"
      else if idx == 2 then (if leadingZero then "%02d" else "%2d")
      else if leadingZero then "%03d" else "%3d";
    FormatStringRoundTrip(DecFormatFor(idx, leadingZero));
    assert s == FormatString(DecFormatFor(idx, leadingZero));
    s
  }

  /** A zero-padded setting of width 2 or 3 names zero-padded files: every
      image index from 0 to 99 (resp. 999) gets exactly `width` digits. */
  lemma SwapFormatWidth(q: UVSequencer, idx: int)
    requires q.config.swapDecFormat == "03" && 0 <= idx < 1000
    ensures var f := InitSwapDecFormat(q).decFormat.value;
      f == DecFormat(3, true) && |Sprintf(f, idx)| == 3
  {
    var s := q.config.swapDecFormat;
    assert StartsWith(s, "0");
    assert s[1..] == "3";
    assert ToInt("3") == 3 by {
      ToIntOfDigits("3");
    }
    NatToDecLength(idx);
  }

  /** Numbers below 1000 have at most three digits. */
  lemma NatToDecLength(n: nat)
    requires n < 1000
    ensures |NatToDec(n)| <= 3
  {
    if n >= 10 {
      if n >= 100 {
        assert NatToDec(n) == NatToDec(n / 10) + [DigitChar(n % 10)];
        assert NatToDec(n / 10) == NatToDec(n / 100) + [DigitChar((n / 10) % 10)];
      } else {
        assert NatToDec(n) == NatToDec(n / 10) + [DigitChar(n % 10)];
      }
    }
  }

  // ---------------------------------------------------------------------
  // Scrolling

  /** The engine's Sign: 1, -1 or 0. */
  function Sign(x: real): (r: real)
    ensures r == 1.0 || r == -1.0 || r == 0.0
    ensures r > 0.0 <==> x > 0.0
    ensures r < 0.0 <==> x < 0.0
  {
    if x > 0.0 then 1.0 else if x < 0.0 then -1.0 else 0.0
  }

  /** One scroll step: the offset moves by the speed plus the signed,
      scaled time step. */
  function ScrollStep(offset: real, speed: real, timeStep: real, fraction: real): (r: real)
    ensures timeStep * fraction >= 0.0 ==> (speed > 0.0 ==> r > offset) && (speed < 0.0 ==> r < offset)
    ensures speed == 0.0 ==> r == offset
  {
    assert speed > 0.0 ==> Sign(speed) * timeStep * fraction == timeStep * fraction;
    assert speed < 0.0 ==> Sign(speed) * timeStep * fraction == -(timeStep * fraction);
    offset + (speed + Sign(speed) * timeStep * fraction)
  }

  // ---------------------------------------------------------------------
  // Reset and per-tick dispatch

  /** What Reset and FixedUpdate need so that no step divides by zero or
      formats with no format. */
  predicate CanStep(q: UVSequencer, elapsedMs: U32)
  {
    var expired := elapsedMs > q.config.timePerFrame;
    && (TypeOf(q.config.seqType) == Some(UVFrame) && ShowsFrame(q, expired) ==> q.config.cols != 0)
    && (TypeOf(q.config.seqType) == Some(SwapImage) && ShowsImage(q, expired) ==> q.decFormat.Some?)
  }

  /** The common part of Reset: counters and offsets back to zero. */
  function Rewind(q: UVSequencer): (r: UVSequencer)
    ensures r.curFrameIdx == 0 && r.curImageIdx == 0 && r.uOffset == 0.0 && r.vOffset == 0.0
    ensures r.config == q.config && r.enabled == q.enabled && r.updating == q.updating && r.decFormat == q.decFormat
  {
    q.(curFrameIdx := 0, curImageIdx := 0, uOffset := 0.0, vOffset := 0.0)
  }

  /** UVSequencer::Reset. `elapsedMs` is the timer's reading right after
      its restart, which the frame sequence consults once. */
  function Reset(q: UVSequencer, elapsedMs: U32): (r: (UVSequencer, seq<Effect>))
    requires TypeOf(q.config.seqType) == Some(UVFrame) && ShowsFrame(Rewind(q), elapsedMs > q.config.timePerFrame)
             ==> q.config.cols != 0
    ensures r.0.config == q.config && r.0.enabled == q.enabled
    ensures r.0.uOffset == 0.0 && r.0.vOffset == 0.0
    ensures TypeOf(q.config.seqType) != Some(UVFrame) ==> r.0.curFrameIdx == 0 && r.0.updating == q.updating
    ensures r.0.curImageIdx == if TypeOf(q.config.seqType) == Some(SwapImage) then q.config.swapBegIdx else 0
    ensures TypeOf(q.config.seqType) == Some(SwapImage) ==> r.0.decFormat.Some? && r.1 == []
    ensures TypeOf(q.config.seqType) == Some(UScroll) ==> r.1 == [SetUOffset(1.0)]
    ensures TypeOf(q.config.seqType) == Some(VScroll) ==> r.1 == [SetVOffset(1.0)]
    ensures TypeOf(q.config.seqType).None? ==> r.1 == [] && r.0 == Rewind(q)
  {
    var q1 := Rewind(q);
    match TypeOf(q.config.seqType)
    case Some(UScroll) => (q1, [SetUOffset(1.0)])
    case Some(VScroll) => (q1, [SetVOffset(1.0)])
    case Some(UVFrame) => UpdateUVFrame(q1, elapsedMs)
    case Some(SwapImage) => (InitSwapDecFormat(q1), [])
    case None => (q1, [])
  }

  /** UVSequencer::DelayedStart after the drawable lookup: reset, and stop
      updates unless the sequencer starts enabled. */
  function DelayedStart(q: UVSequencer, elapsedMs: U32): (r: (UVSequencer, seq<Effect>))
    requires TypeOf(q.config.seqType) == Some(UVFrame) && ShowsFrame(Rewind(q), elapsedMs > q.config.timePerFrame)
             ==> q.config.cols != 0
    ensures r.0.updating ==> q.enabled
    ensures r.0.enabled == q.enabled
  {
    var (q', fx) := Reset(q, elapsedMs);
    if !q'.enabled then (q'.(updating := false), fx) else (q', fx)
  }

  /** Started for the first time, a new sequencer keeps its fixed updates
      only if it was created enabled, and for the scroll and swap types
      exactly then. The offsets start over at zero, and an image swap begins
      at its first image with a format selected. */
  lemma FreshStart(c: Config, e: bool, t: U32)
    requires TypeOf(c.seqType) == Some(UVFrame) && ShowsFrame(Rewind(Create(c, e)), t > c.timePerFrame)
             ==> c.cols != 0
    ensures var q := DelayedStart(Create(c, e), t).0;
      && (q.updating ==> e)
      && (TypeOf(c.seqType) != Some(UVFrame) ==> (q.updating <==> e))
      && q.uOffset == 0.0 && q.vOffset == 0.0
      && q.curImageIdx == (if TypeOf(c.seqType) == Some(SwapImage) then c.swapBegIdx else 0)
      && (TypeOf(c.seqType) == Some(SwapImage) ==> q.decFormat.Some?)
  {
  }

  /** UVSequencer::FixedUpdate as the engine delivers it: only while the
      update mask is set, and skipped when the drawable is out of view. */
  function FixedUpdate(q: UVSequencer, inView: bool, timeStep: real, elapsedMs: U32): (r: (UVSequencer, seq<Effect>))
    requires CanStep(q, elapsedMs)
    ensures !q.updating || !inView ==> r == (q, [])
    ensures r.0.config == q.config && r.0.enabled == q.enabled && r.0.decFormat == q.decFormat
    ensures r.0.updating ==> q.updating
    ensures TypeOf(q.config.seqType).None? ==> r == (q, [])
  {
    if !q.updating || !inView then (q, [])
    else
      var c := q.config;
      match TypeOf(c.seqType)
      case Some(UScroll) =>
        var u := ScrollStep(q.uOffset, c.uScrollSpeed, timeStep, c.timerFraction);
        (q.(uOffset := u), [SetUOffset(u)])
      case Some(VScroll) =>
        var v := ScrollStep(q.vOffset, c.vScrollSpeed, timeStep, c.timerFraction);
        (q.(vOffset := v), [SetVOffset(v)])
      case Some(UVFrame) => UpdateUVFrame(q, elapsedMs)
      case Some(SwapImage) => UpdateSwapImage(q, elapsedMs)
      case None => (q, [])
  }

  // ---------------------------------------------------------------------
  // Invariants over runs

  /** The index invariant of a sequencer: the frame index never goes below
      0 and the image index never below the first image once it is set. */
  predicate Valid(q: UVSequencer)
  {
    && 0 <= q.curFrameIdx
    && (TypeOf(q.config.seqType) == Some(SwapImage) && q.decFormat.Some? ==> q.config.swapBegIdx <= q.curImageIdx)
  }

  lemma ValidPreserved(q: UVSequencer, inView: bool, timeStep: real, elapsedMs: U32, enable: bool)
    requires Valid(q) && CanStep(q, elapsedMs)
    ensures Valid(FixedUpdate(q, inView, timeStep, elapsedMs).0)
    ensures Valid(SetEnabled(q, enable).0)
  {
  }

  lemma ValidAfterReset(q: UVSequencer, elapsedMs: U32)
    requires TypeOf(q.config.seqType) == Some(UVFrame) && ShowsFrame(Rewind(q), elapsedMs > q.config.timePerFrame)
             ==> q.config.cols != 0
    ensures Valid(Reset(q, elapsedMs).0)
  {
  }

  /** In a valid frame sequence with at least one frame, every displayed
      frame lies inside the sheet: its row below `rows`, its column below
      `cols`, whenever the sheet has room for all frames. */
  lemma FramesStayInSheet(q: UVSequencer, inView: bool, timeStep: real, elapsedMs: U32)
    requires Valid(q) && CanStep(q, elapsedMs)
    requires TypeOf(q.config.seqType) == Some(UVFrame)
    requires 0 < q.config.numFrames && 0 < q.config.cols && q.config.numFrames <= q.config.rows * q.config.cols
    ensures forall e :: e in FixedUpdate(q, inView, timeStep, elapsedMs).1 ==>
      e.SetCurRowCol? && 0 <= e.row < q.config.rows && 0 <= e.col < q.config.cols
  {
    var r := FixedUpdate(q, inView, timeStep, elapsedMs);
    if |r.1| == 1 {
      RowColInSheet(r.0.curFrameIdx, q.config.rows, q.config.cols);
    }
  }

  /** In a valid swap sequence with a non-empty range, every image shown
      lies in [swapBegIdx, swapEndIdx). */
  lemma ImagesStayInRange(q: UVSequencer, inView: bool, timeStep: real, elapsedMs: U32)
    requires Valid(q) && CanStep(q, elapsedMs)
    requires TypeOf(q.config.seqType) == Some(SwapImage) && q.decFormat.Some?
    requires q.config.swapBegIdx < q.config.swapEndIdx
    ensures var r := FixedUpdate(q, inView, timeStep, elapsedMs);
      forall e :: e in r.1 ==>
        e == ShowImage(r.0) && q.config.swapBegIdx <= r.0.curImageIdx < q.config.swapEndIdx
  {
  }

  /** `k` frame expiries in a row, the mask permitting. */
  function Expire(q: UVSequencer, k: nat): (r: UVSequencer)
    requires TypeOf(q.config.seqType) == Some(UVFrame) && q.config.cols != 0
    requires q.config.timePerFrame + 1 < TwoTo32
    ensures r.config == q.config && r.enabled == q.enabled
    decreases k
  {
    if k == 0 then q
    else
      var q' := FixedUpdate(q, true, 0.0, q.config.timePerFrame + 1).0;
      Expire(q', k - 1)
  }

  /** From a rewound, updating frame sequence, k < numFrames expiries show
      frame k and keep updating. */
  lemma {:induction false} ExpireCounts(q: UVSequencer, k: nat)
    requires TypeOf(q.config.seqType) == Some(UVFrame) && q.config.cols != 0
    requires q.updating && q.curFrameIdx == 0 && k < q.config.numFrames
    requires q.config.timePerFrame + 1 < TwoTo32
    ensures Expire(q, k) == q.(curFrameIdx := k)
    decreases k
  {
    if k > 0 {
      ExpireCounts(q, k - 1);
      ExpireStep(q.(curFrameIdx := k - 1), k);
      ExpireShift(q, k);
    }
  }

  /** Expire peels off its last step. */
  lemma {:induction false} ExpireShift(q: UVSequencer, k: nat)
    requires TypeOf(q.config.seqType) == Some(UVFrame) && q.config.cols != 0 && k > 0
    requires q.config.timePerFrame + 1 < TwoTo32
    ensures Expire(q, k) == Expire(Expire(q, k - 1), 1)
    decreases k
  {
    if k > 1 {
      var q' := FixedUpdate(q, true, 0.0, q.config.timePerFrame + 1).0;
      ExpireShift(q', k - 1);
    }
  }

  lemma ExpireStep(q: UVSequencer, k: nat)
    requires TypeOf(q.config.seqType) == Some(UVFrame) && q.config.cols != 0
    requires q.updating && q.curFrameIdx == k - 1 && 0 < k < q.config.numFrames
    requires q.config.timePerFrame + 1 < TwoTo32
    ensures Expire(q, 1) == q.(curFrameIdx := k)
  {
  }

  /** The expiry of the last frame wraps to frame 0 when repeating and
      stops past the end otherwise. */
  lemma ExpireLast(q: UVSequencer)
    requires TypeOf(q.config.seqType) == Some(UVFrame) && q.config.cols != 0
    requires q.updating && 0 < q.config.numFrames && q.curFrameIdx == q.config.numFrames - 1
    requires q.config.timePerFrame + 1 < TwoTo32
    ensures Expire(q, 1) == if q.config.repeat then q.(curFrameIdx := 0)
                            else q.(curFrameIdx := q.config.numFrames, updating := false)
  {
  }

  /** From a rewound, updating frame sequence, numFrames expiries end at
      frame 0 when repeating and stop past the last frame otherwise. */
  lemma ExpireToEnd(q: UVSequencer)
    requires TypeOf(q.config.seqType) == Some(UVFrame) && q.config.cols != 0
    requires q.updating && q.curFrameIdx == 0 && 0 < q.config.numFrames
    requires q.config.timePerFrame + 1 < TwoTo32
    ensures Expire(q, q.config.numFrames) == if q.config.repeat then q
                                             else q.(curFrameIdx := q.config.numFrames, updating := false)
  {
    var n := q.config.numFrames;
    var last := q.(curFrameIdx := n - 1);
    ExpireCounts(q, n - 1);
    ExpireShift(q, n);
    ExpireLast(last);
    assert last.(curFrameIdx := 0) == q;
  }

  /** A non-repeating frame sequence stops after exactly numFrames expiries
      with the index at numFrames, and stopping leaves `enabled` set: a
      later SetEnabled(true) reports no change and does not restart it. */
  lemma NonRepeatingStops(q: UVSequencer)
    requires TypeOf(q.config.seqType) == Some(UVFrame) && q.config.cols != 0
    requires q.updating && q.enabled && q.curFrameIdx == 0 && 0 < q.config.numFrames && !q.config.repeat
    requires q.config.timePerFrame + 1 < TwoTo32
    ensures var end := Expire(q, q.config.numFrames);
      && !end.updating && end.enabled && end.curFrameIdx == q.config.numFrames
      && SetEnabled(end, true) == (end, false)
  {
    ExpireToEnd(q);
  }

  /** A repeating frame sequence is periodic: numFrames expiries bring it
      back to frame 0, still updating. */
  lemma RepeatingCycles(q: UVSequencer)
    requires TypeOf(q.config.seqType) == Some(UVFrame) && q.config.cols != 0
    requires q.updating && q.curFrameIdx == 0 && 0 < q.config.numFrames && q.config.repeat
    requires q.config.timePerFrame + 1 < TwoTo32
    ensures Expire(q, q.config.numFrames) == q
  {
    ExpireToEnd(q);
  }
}
