/** SequenceImagePacker: packs a numbered image sequence (prefix + index +
    "." + extension) into one grid image. Modelled: argument parsing,
    range and format validation, the input-path normalisation, the scan that
    counts loadable frames and clamps the frame size, the grid-layout search,
    the frame-to-tile and pixel-to-pixel mappings, and the output dispatch.
    The file system and image loading are inputs: a set of existing
    directories and a map from file name to the loadable image's metadata. */
module Packer {
  import opened Base
  import opened Text

  /** How the program ends early: Help (usage text, after an optional
      message), ErrorExit with a message, or a value flag with nothing after
      it, which the source reads past the end of its argument list. */
  datatype Exit = HelpExit(message: string) | ErrorExit(message: string) | MissingValue(flag: string)

  const MissingArgsMessage: string := "Missing args, requires at least input path, sp, sx, ss and se\n"
  const WrongOrderMessage: string := "Wrong arg order?"

  datatype Options = Options(
    inputPath: string,
    seqPrefix: string,
    seqExt: string,
    outExt: string,
    seqStart: int,
    seqEnd: int,
    strFormat: string,
    frameWidth: int,
    frameHeight: int,
    offsetX: int,
    offsetY: int,
    verbose: bool)

  /** The option values before any flag is read. */
  function Defaults(inputPath: string): (o: Options)
    ensures o.inputPath == inputPath && !o.verbose
    ensures o.seqStart == 0 && o.seqEnd == 0 && o.frameWidth == 0 && o.frameHeight == 0
  {
    Options(inputPath, "", "", "", 0, 0, "", 0, 0, 0, 0, false)
  }

  // ---------------------------------------------------------------------
  // Arguments

  /** The flags that take a value. */
  datatype Flag = Sp | Sx | Ss | Se | Sf | Fw | Fh | Ox | Oy | Outx

  function FlagName(f: Flag): string
  {
    match f
    case Sp => "-sp"
    case Sx => "-sx"
    case Ss => "-ss"
    case Se => "-se"
    case Sf => "-sf"
    case Fw => "-fw"
    case Fh => "-fh"
    case Ox => "-ox"
    case Oy => "-oy"
    case Outx => "-outx"
  }

  /** The value flag an argument spells exactly, if any (compared
      character by character, case-sensitively). */
  function FlagOf(arg: string): (r: Option<Flag>)
    ensures r.Some? ==> arg == FlagName(r.value)
  {
    if |arg| == 3 && arg[0] == '-' then
      var a, b := arg[1], arg[2];
      assert arg == [arg[0], a, b];
      if a == 's' && b == 'p' then Some(Sp)
      else if a == 's' && b == 'x' then Some(Sx)
      else if a == 's' && b == 's' then Some(Ss)
      else if a == 's' && b == 'e' then Some(Se)
      else if a == 's' && b == 'f' then Some(Sf)
      else if a == 'f' && b == 'w' then Some(Fw)
      else if a == 'f' && b == 'h' then Some(Fh)
      else if a == 'o' && b == 'x' then Some(Ox)
      else if a == 'o' && b == 'y' then Some(Oy)
      else None
    else if |arg| == 5 && arg[0] == '-' && arg[1] == 'o' && arg[2] == 'u' && arg[3] == 't' && arg[4] == 'x' then
      assert arg == "-outx";
      Some(Outx)
    else None
  }

  /** Every value flag is recognised from its name. */
  lemma FlagRoundTrip(f: Flag)
    ensures FlagOf(FlagName(f)) == Some(f)
  {
  }

  /** `arg` is exactly "-" followed by the single letter `c`. */
  predicate IsSwitch(arg: string, c: char)
  {
    |arg| == 2 && arg[0] == '-' && arg[1] == c
  }

  /** Stores the value that follows a value flag; numeric options go through
      the engine's ToInt. */
  function SetOption(o: Options, f: Flag, v: string): (r: Options)
    ensures r.inputPath == o.inputPath && r.verbose == o.verbose
  {
    match f
    case Sp => o.(seqPrefix := v)
    case Sx => o.(seqExt := v)
    case Ss => o.(seqStart := ToInt(v))
    case Se => o.(seqEnd := ToInt(v))
    case Sf => o.(strFormat := v)
    case Fw => o.(frameWidth := ToInt(v))
    case Fh => o.(frameHeight := ToInt(v))
    case Ox => o.(offsetX := ToInt(v))
    case Oy => o.(offsetY := ToInt(v))
    case Outx => o.(outExt := v)
  }

  /** The flag loop after the input path: empty arguments are skipped, value
      flags consume the next argument, "-v" sets verbose, "-h" shows help,
      other "-" arguments are ignored and a bare argument is an error. */
  function ParseFlags(o: Options, rest: seq<string>): (r: Result<Options, Exit>)
    ensures r.Ok? ==> r.value.inputPath == o.inputPath
    ensures r.Ok? && o.verbose ==> r.value.verbose
    ensures r.Err? ==> r.error == HelpExit("") || r.error == HelpExit(WrongOrderMessage) || r.error.MissingValue?
    decreases |rest|
  {
    if |rest| == 0 then Ok(o)
    else
      var arg := rest[0];
      var tail := rest[1..];
      if arg == [] then ParseFlags(o, tail)
      else if arg[0] != '-' then Err(HelpExit(WrongOrderMessage))
      else if FlagOf(arg).Some? then
        if |tail| == 0 then Err(MissingValue(arg)) else ParseFlags(SetOption(o, FlagOf(arg).value, tail[0]), tail[1..])
      else if IsSwitch(arg, 'v') then ParseFlags(o.(verbose := true), tail)
      else if IsSwitch(arg, 'h') then Err(HelpExit(""))
      else ParseFlags(o, tail)
  }

  /** An argument starting with '-' that is no known flag is skipped. */
  lemma UnknownFlagIgnored(o: Options, arg: string, rest: seq<string>)
    requires |arg| > 0 && arg[0] == '-' && FlagOf(arg).None? && !IsSwitch(arg, 'v') && !IsSwitch(arg, 'h')
    ensures ParseFlags(o, [arg] + rest) == ParseFlags(o, rest)
  {
    assert ([arg] + rest)[1..] == rest;
  }

  /** A bare word where a flag is expected stops the run with help. */
  lemma BareWordRejected(o: Options, arg: string, rest: seq<string>)
    requires |arg| > 0 && arg[0] != '-'
    ensures ParseFlags(o, [arg] + rest) == Err(HelpExit(WrongOrderMessage))
  {
  }

  /** The start of Run with a given minimum argument count: too few
      arguments shows help; the first argument is the input path. */
  function ParseArgsWith(minArgs: nat, args: seq<string>): (r: Result<Options, Exit>)
    requires minArgs >= 1
    ensures |args| < minArgs ==> r == Err(HelpExit(MissingArgsMessage))
    ensures r.Ok? ==> |args| >= minArgs && r.value.inputPath == args[0]
  {
    if |args| < minArgs then Err(HelpExit(MissingArgsMessage))
    else ParseFlags(Defaults(args[0]), args[1..])
  }

  /** The guard as written: fewer than 2 + 4*2 arguments. The count was
      meant to include the program name, but the argument list starts at
      the input path. */
  const MinArgsAsWritten: nat := 2 + 4 * 2
  /** The input path plus four flag pairs, as the comment at the guard counts them. */
  const MinArgs: nat := 1 + 4 * 2

  function ParseArgsAsWritten(args: seq<string>): Result<Options, Exit>
  {
    ParseArgsWith(MinArgsAsWritten, args)
  }

  function ParseArgs(args: seq<string>): Result<Options, Exit>
  {
    ParseArgsWith(MinArgs, args)
  }

  /** A value flag followed by its value, in front of the remaining arguments. */
  function Pair(f: Flag, v: string, rest: seq<string>): (args: seq<string>)
    ensures |args| == |rest| + 2
  {
    [FlagName(f), v] + rest
  }

  /** A nine-argument command line: the input path plus -sx, -sf, -ss and
      -se. It leaves out -sp, so the frames have no prefix. */
  function MinimalCommand(path: string, ext: string, sf: string, start: int, end: int): seq<string>
  {
    [path] + Pair(Sx, ext, Pair(Sf, sf, Pair(Ss, Plain(start), Pair(Se, Plain(end), []))))
  }

  /** As written, the nine-argument command line is turned away with the
      "missing args" help, although it names a range and a format that
      validate. */
  lemma MinimalCommandRejectedAsWritten()
    ensures ParseArgsAsWritten(MinimalCommand("frames", "png", "3", 0, 10)) == Err(HelpExit(MissingArgsMessage))
  {
  }

  /** With the input path counted once, the nine-argument command line
      yields exactly its four options, and when its range and its one-digit
      format are acceptable it also passes validation. */
  lemma MinimalCommandAccepted(path: string, ext: string, d: char, start: int, end: int)
    ensures ParseArgs(MinimalCommand(path, ext, [d], start, end))
      == Ok(Defaults(path).(seqExt := ext, strFormat := [d], seqStart := start, seqEnd := end))
    ensures 0 <= start && end - start >= 2 && '1' <= d <= '3' ==>
      Validate(ParseArgs(MinimalCommand(path, ext, [d], start, end)).value)
        == Ok(Numbering(start, end, DecFormatFor(DigitValue(d), false)))
  {
    MinimalCommandFlags(path, ext, [d], start, end);
    MinimalFlagsParsed(path, ext, [d], start, end);
    var o := Defaults(path).(seqExt := ext, strFormat := [d], seqStart := start, seqEnd := end);
    if 0 <= start && end - start >= 2 && '1' <= d <= '3' {
      OneDigitFormatValidates(o, d);
    }
  }

  /** A good range with a one-digit -sf validates to that width, unpadded. */
  lemma OneDigitFormatValidates(o: Options, d: char)
    requires 0 <= o.seqStart && o.seqEnd - o.seqStart >= 2
    requires '1' <= d <= '3' && o.strFormat == [d]
    ensures Validate(o) == Ok(Numbering(o.seqStart, o.seqEnd, DecFormatFor(DigitValue(d), false)))
  {
    HelpFormatsAccepted(o, d);
    assert !StartsWith(o.strFormat, "0");
  }

  /** The nine-argument command line reduces to its four flag pairs. */
  lemma MinimalCommandFlags(path: string, ext: string, sf: string, start: int, end: int)
    ensures ParseArgs(MinimalCommand(path, ext, sf, start, end))
      == ParseFlags(Defaults(path), Pair(Sx, ext, Pair(Sf, sf, Pair(Ss, Plain(start), Pair(Se, Plain(end), [])))))
  {
    assert MinimalCommand(path, ext, sf, start, end)[1..]
      == Pair(Sx, ext, Pair(Sf, sf, Pair(Ss, Plain(start), Pair(Se, Plain(end), []))));
  }

  /** The four flag pairs set exactly their four options. */
  lemma MinimalFlagsParsed(path: string, ext: string, sf: string, start: int, end: int)
    ensures ParseFlags(Defaults(path), Pair(Sx, ext, Pair(Sf, sf, Pair(Ss, Plain(start), Pair(Se, Plain(end), [])))))
      == Ok(Defaults(path).(seqExt := ext, strFormat := sf, seqStart := start, seqEnd := end))
  {
    PlainRoundTrip(start);
    PlainRoundTrip(end);
    FourFlagsSet(Defaults(path), ext, sf, Plain(start), Plain(end), start, end);
  }

  /** -sx, -sf, -ss and -se set their options, the numbers being read with ToInt. */
  lemma FourFlagsSet(o: Options, ext: string, sf: string, vs: string, ve: string, start: int, end: int)
    requires ToInt(vs) == start && ToInt(ve) == end
    ensures ParseFlags(o, Pair(Sx, ext, Pair(Sf, sf, Pair(Ss, vs, Pair(Se, ve, [])))))
      == Ok(o.(seqExt := ext, strFormat := sf, seqStart := start, seqEnd := end))
  {
    NameFlagsSet(o, ext, sf, Pair(Ss, vs, Pair(Se, ve, [])));
    RangeFlagsSet(o.(seqExt := ext, strFormat := sf), vs, ve, start, end);
  }

  /** -sx and -sf store their values as they are. */
  lemma NameFlagsSet(o: Options, ext: string, sf: string, rest: seq<string>)
    ensures ParseFlags(o, Pair(Sx, ext, Pair(Sf, sf, rest))) == ParseFlags(o.(seqExt := ext, strFormat := sf), rest)
  {
    ParseValueFlag(o, Sx, ext, Pair(Sf, sf, rest));
    ParseValueFlag(o.(seqExt := ext), Sf, sf, rest);
  }

  /** -ss and -se, ending the command line, store the numbers they spell. */
  lemma RangeFlagsSet(o: Options, vs: string, ve: string, start: int, end: int)
    requires ToInt(vs) == start && ToInt(ve) == end
    ensures ParseFlags(o, Pair(Ss, vs, Pair(Se, ve, []))) == Ok(o.(seqStart := start, seqEnd := end))
  {
    ParseValueFlag(o, Ss, vs, Pair(Se, ve, []));
    ParseValueFlag(o.(seqStart := start), Se, ve, []);
  }

  /** An unpadded number reads back as itself. */
  lemma PlainRoundTrip(n: int)
    ensures ToInt(Plain(n)) == n
  {
    SprintfToIntRoundTrip(DecFormat(0, false), n);
    assert Sprintf(DecFormat(0, false), n) == Plain(n);
  }

  /** A value flag and its value are consumed together. */
  lemma ParseValueFlag(o: Options, f: Flag, v: string, rest: seq<string>)
    ensures ParseFlags(o, Pair(f, v, rest)) == ParseFlags(SetOption(o, f, v), rest)
  {
    var args := Pair(f, v, rest);
    FlagRoundTrip(f);
    assert args[0] == FlagName(f) && args[1..][0] == v && args[1..][1..] == rest;
  }

  /** Four flag-value pairs are consumed in order. */
  lemma ParseFour(o: Options, f1: Flag, v1: string, f2: Flag, v2: string, f3: Flag, v3: string,
                  f4: Flag, v4: string, rest: seq<string>)
    ensures ParseFlags(o, Pair(f1, v1, Pair(f2, v2, Pair(f3, v3, Pair(f4, v4, rest)))))
      == ParseFlags(SetOption(SetOption(SetOption(SetOption(o, f1, v1), f2, v2), f3, v3), f4, v4), rest)
  {
    ParseValueFlag(o, f1, v1, Pair(f2, v2, Pair(f3, v3, Pair(f4, v4, rest))));
    var o1 := SetOption(o, f1, v1);
    ParseValueFlag(o1, f2, v2, Pair(f3, v3, Pair(f4, v4, rest)));
    var o2 := SetOption(o1, f2, v2);
    ParseValueFlag(o2, f3, v3, Pair(f4, v4, rest));
    var o3 := SetOption(o2, f3, v3);
    ParseValueFlag(o3, f4, v4, rest);
  }

  /** The command line that spells out every option. */
  function Render(o: Options): seq<string>
  {
    [o.inputPath] + RenderFlags(o)
  }

  function RenderFlags(o: Options): seq<string>
  {
    Pair(Sp, o.seqPrefix, Pair(Sx, o.seqExt, Pair(Ss, Plain(o.seqStart), Pair(Se, Plain(o.seqEnd),
    FrameFlags(o)))))
  }

  function FrameFlags(o: Options): seq<string>
  {
    Pair(Sf, o.strFormat, Pair(Fw, Plain(o.frameWidth), Pair(Fh, Plain(o.frameHeight),
    Pair(Ox, Plain(o.offsetX), OutputFlags(o)))))
  }

  function OutputFlags(o: Options): seq<string>
  {
    Pair(Oy, Plain(o.offsetY), Pair(Outx, o.outExt, VerboseFlag(o)))
  }

  function VerboseFlag(o: Options): seq<string>
  {
    if o.verbose then ["-v"] else []
  }

  /** The flags part of the rendered command line, after the input path. */
  lemma RenderSplits(o: Options)
    ensures Render(o)[0] == o.inputPath && Render(o)[1..] == RenderFlags(o)
  {
  }

  /** The first four rendered pairs set the sequence options of `o`. */
  lemma SequencePairsSet(x: Options, o: Options)
    ensures SetOption(SetOption(SetOption(SetOption(x, Sp, o.seqPrefix), Sx, o.seqExt), Ss, Plain(o.seqStart)),
                      Se, Plain(o.seqEnd))
      == x.(seqPrefix := o.seqPrefix, seqExt := o.seqExt, seqStart := o.seqStart, seqEnd := o.seqEnd)
  {
    PlainRoundTrip(o.seqStart);
    PlainRoundTrip(o.seqEnd);
  }

  /** The next four rendered pairs set the format and frame options of `o`. */
  lemma FramePairsSet(x: Options, o: Options)
    ensures SetOption(SetOption(SetOption(SetOption(x, Sf, o.strFormat), Fw, Plain(o.frameWidth)),
                                Fh, Plain(o.frameHeight)), Ox, Plain(o.offsetX))
      == x.(strFormat := o.strFormat, frameWidth := o.frameWidth, frameHeight := o.frameHeight, offsetX := o.offsetX)
  {
    PlainRoundTrip(o.frameWidth);
    PlainRoundTrip(o.frameHeight);
    PlainRoundTrip(o.offsetX);
  }

  /** Reading the sequence pairs of a rendered command line. */
  lemma SequencePairsParsed(o: Options)
    ensures ParseFlags(Defaults(o.inputPath), RenderFlags(o))
      == ParseFlags(Defaults(o.inputPath).(seqPrefix := o.seqPrefix, seqExt := o.seqExt,
                                           seqStart := o.seqStart, seqEnd := o.seqEnd), FrameFlags(o))
  {
    var x0 := Defaults(o.inputPath);
    ParseFour(x0, Sp, o.seqPrefix, Sx, o.seqExt, Ss, Plain(o.seqStart), Se, Plain(o.seqEnd), FrameFlags(o));
    SequencePairsSet(x0, o);
  }

  /** Reading the format and frame pairs of a rendered command line. */
  lemma FramePairsParsed(x: Options, o: Options)
    ensures ParseFlags(x, FrameFlags(o))
      == ParseFlags(x.(strFormat := o.strFormat, frameWidth := o.frameWidth, frameHeight := o.frameHeight,
                       offsetX := o.offsetX), OutputFlags(o))
  {
    ParseFour(x, Sf, o.strFormat, Fw, Plain(o.frameWidth), Fh, Plain(o.frameHeight), Ox, Plain(o.offsetX),
              OutputFlags(o));
    FramePairsSet(x, o);
  }

  /** Reading the -oy and -outx pairs. */
  lemma OutputPairsParsed(x: Options, y: int, e: string, rest: seq<string>)
    ensures ParseFlags(x, Pair(Oy, Plain(y), Pair(Outx, e, rest)))
      == ParseFlags(x.(offsetY := y, outExt := e), rest)
  {
    PlainRoundTrip(y);
    var x1 := SetOption(x, Oy, Plain(y));
    assert x1 == x.(offsetY := y);
    assert SetOption(x1, Outx, e) == x.(offsetY := y, outExt := e);
    ParseValueFlag(x, Oy, Plain(y), Pair(Outx, e, rest));
    ParseValueFlag(x1, Outx, e, rest);
  }

  /** Reading the rendered pairs sets every option but verbose from `o`. */
  lemma RenderedPairsParsed(o: Options)
    ensures ParseFlags(Defaults(o.inputPath), RenderFlags(o))
      == ParseFlags(o.(verbose := false), VerboseFlag(o))
  {
    SequencePairsParsed(o);
    var x4 := Defaults(o.inputPath).(seqPrefix := o.seqPrefix, seqExt := o.seqExt,
                                     seqStart := o.seqStart, seqEnd := o.seqEnd);
    FramePairsParsed(x4, o);
    var x8 := x4.(strFormat := o.strFormat, frameWidth := o.frameWidth, frameHeight := o.frameHeight,
                  offsetX := o.offsetX);
    OutputPairsParsed(x8, o.offsetY, o.outExt, VerboseFlag(o));
    assert x8.(offsetY := o.offsetY, outExt := o.outExt) == o.(verbose := false);
  }

  /** Parsing the rendered command line gives back every option, under
      either argument-count guard. */
  lemma ParseRenderRoundTrip(o: Options)
    ensures ParseArgs(Render(o)) == Ok(o)
    ensures ParseArgsAsWritten(Render(o)) == Ok(o)
  {
    RenderSplits(o);
    RenderedPairsParsed(o);
    var x := o.(verbose := false);
    if o.verbose {
      var t: seq<string> := ["-v"];
      assert t[1..] == [];
      assert ParseFlags(x, t) == ParseFlags(x.(verbose := true), []);
    }
  }

  // ---------------------------------------------------------------------
  // Validation

  /** The sequence number format: zero padding and width. */
  function SequenceDecFormat(idx: int, leadingZero: bool): (s: string)
    ensures ParseFormatString(s) == Some(DecFormatFor(idx, leadingZero))
  {
    var s := if idx == 1 then "%1d"
      else if idx == 2 then (if leadingZero then "%02d" else "%2d")
      else if leadingZero then "%03d" else "%3d";
    FormatStringRoundTrip(DecFormatFor(idx, leadingZero));
    assert s == FormatString(DecFormatFor(idx, leadingZero));
    s
  }

  /** The validated numbering: first and last index and the conversion. */
  datatype Numbering = Numbering(seqStart: int, seqEnd: int, format: DecFormat)

  /** The range check, then the format: a leading '0' asks for zero padding
      and the rest is the width, which must lie in 1..3. */
  function Validate(o: Options): (r: Result<Numbering, Exit>)
    ensures r.Ok? <==>
      && 0 <= o.seqStart && 0 <= o.seqEnd && o.seqEnd - o.seqStart >= 2
      && 1 <= FormatWidth(o.strFormat) <= 3
    ensures r.Err? && (o.seqStart < 0 || o.seqEnd < 0 || o.seqEnd - o.seqStart < 2)
      ==> r.error == ErrorExit("improper ss and/or se")
    ensures r.Ok? ==> r.value.seqStart == o.seqStart && r.value.seqEnd == o.seqEnd
    ensures r.Ok? ==>
      && r.value.format.width == FormatWidth(o.strFormat)
      && (r.value.format.zeroPad <==> StartsWith(o.strFormat, "0") && FormatWidth(o.strFormat) != 1)
  {
    if o.seqStart < 0 || o.seqEnd < 0 || o.seqEnd - o.seqStart < 2 then Err(ErrorExit("improper ss and/or se"))
    else
      var w := FormatWidth(o.strFormat);
      if w < 1 || w > 3 then Err(ErrorExit("sf not in range"))
      else Ok(Numbering(o.seqStart, o.seqEnd, DecFormatFor(w, StartsWith(o.strFormat, "0"))))
  }

  /** The width named by the -sf string, after an optional leading '0'. */
  function FormatWidth(s: string): int
  {
    if StartsWith(s, "0") then ToInt(s[1..]) else ToInt(s)
  }

  /** The -sf strings the help text names ("1", "2", "3", "01", "02",
      "03") all validate, with the width of their digit and the padding
      their leading zero asks for, except that width 1 is never padded. */
  lemma HelpFormatsAccepted(o: Options, d: char)
    requires 0 <= o.seqStart && o.seqEnd - o.seqStart >= 2
    requires '1' <= d <= '3'
    requires o.strFormat == [d] || o.strFormat == ['0', d]
    ensures Validate(o).Ok?
    ensures Validate(o).value.format.width == DigitValue(d)
    ensures Validate(o).value.format.zeroPad <==> |o.strFormat| == 2 && d != '1'
  {
    SingleDigitWidth(o.strFormat, d);
    ValidateWidth(o, DigitValue(d), |o.strFormat| == 2);
  }

  /** Once the width the -sf string names is known, validation of a good
      range depends only on that width and on the leading '0'. */
  lemma ValidateWidth(o: Options, w: int, z: bool)
    requires 0 <= o.seqStart && o.seqEnd - o.seqStart >= 2
    requires FormatWidth(o.strFormat) == w && 1 <= w <= 3
    requires StartsWith(o.strFormat, "0") == z
    ensures Validate(o) == Ok(Numbering(o.seqStart, o.seqEnd, DecFormatFor(w, z)))
  {
  }

  /** A one-digit -sf string, with or without a leading '0', names the
      width of its digit. */
  lemma SingleDigitWidth(s: string, d: char)
    requires '1' <= d <= '3'
    requires s == [d] || s == ['0', d]
    ensures FormatWidth(s) == DigitValue(d)
    ensures StartsWith(s, "0") <==> |s| == 2
  {
    if |s| == 2 {
      assert s[..1] == "0";
      assert s[1..] == [d];
    } else {
      assert s[..1][0] == d;
    }
    assert FormatWidth(s) == ToInt([d]);
    DigitToInt(d);
  }

  /** ToInt of one digit is that digit's value. */
  lemma DigitToInt(d: char)
    requires IsDigit(d)
    ensures ToInt([d]) == DigitValue(d)
  {
    var ds := [d];
    assert AllDigits(ds);
    assert DigitsValue(ds) == DigitValue(d) by {
      assert ds[..0] == [];
    }
    ToIntOfDigits(ds);
  }

  // ---------------------------------------------------------------------
  // Input path

  function Slashes(s: string): (r: string)
    ensures |r| == |s| && forall i :: 0 <= i < |r| ==> r[i] != '\\'
  {
    seq(|s|, i requires 0 <= i < |s| => if s[i] == '\\' then '/' else s[i])
  }

  /** The engine's RemoveTrailingSlash, without whitespace trimming: the
      path with forward slashes, less one trailing slash if it has one. */
  function RemoveTrailingSlash(p: string): (r: string)
    ensures |r| <= |p|
    ensures r + "/" == Slashes(p) || (r == Slashes(p) && (r == "" || r[|r| - 1] != '/'))
  {
    var s := Slashes(p);
    if |s| > 0 && s[|s| - 1] == '/' then s[..|s| - 1] else s
  }

  /** The engine's AddTrailingSlash, without whitespace trimming. */
  function AddTrailingSlash(p: string): (r: string)
    ensures |p| == 0 <==> |r| == 0
    ensures |r| > 0 ==> r[|r| - 1] == '/'
    // the path with forward slashes, and one '/' more exactly when it lacks one at the end
    ensures r == Slashes(p) || r == Slashes(p) + "/"
    ensures r == Slashes(p) + "/" <==> |p| > 0 && Slashes(p)[|p| - 1] != '/'
  {
    var s := Slashes(p);
    if |s| > 0 && s[|s| - 1] != '/' then s + "/" else s
  }

  /** The folder the frames are read from and the output written to: the
      input path with one trailing slash when that directory exists, the
      empty path (the working directory) otherwise. */
  function FilePath(inputPath: string, dirs: set<string>): (r: string)
    ensures r == "" || (r[|r| - 1] == '/' && forall i :: 0 <= i < |r| ==> r[i] != '\\')
    ensures r != "" <==> inputPath != "" && RemoveTrailingSlash(inputPath) in dirs && RemoveTrailingSlash(inputPath) != ""
    // the folder is that directory, with a '/' appended unless it already ends in one
    ensures r != "" ==> var d := RemoveTrailingSlash(inputPath);
      r == d + "/" || (r == d && d[|d| - 1] == '/')
    ensures r != "" && RemoveTrailingSlash(inputPath)[|RemoveTrailingSlash(inputPath)| - 1] != '/' ==>
      r == RemoveTrailingSlash(inputPath) + "/"
  {
    if inputPath == "" then ""
    else
      var p := RemoveTrailingSlash(inputPath);
      var f := if p in dirs then p else "";
      assert Slashes(f) == f;
      AddTrailingSlash(f)
  }

  /** Only one trailing slash is removed, so "a//" names the folder "a/"
      and not "a//". */
  lemma DoubledSlashKept()
    ensures RemoveTrailingSlash("a//") == "a/"
    ensures FilePath("a//", {"a/"}) == "a/"
  {
    assert Slashes("a//") == "a//";
    assert Slashes("a/") == "a/";
    assert "a//"[..2] == "a/";
  }

  /** A directory named with or without its trailing slash gives the same folder. */
  lemma FilePathIgnoresTrailingSlash(d: string, dirs: set<string>)
    requires |d| > 0 && d[|d| - 1] != '/' && forall i :: 0 <= i < |d| ==> d[i] != '\\'
    ensures FilePath(d + "/", dirs) == FilePath(d, dirs)
    ensures d in dirs ==> FilePath(d, dirs) == d + "/"
  {
    assert Slashes(d) == d;
    assert Slashes(d + "/") == d + "/";
    assert (d + "/")[..|d|] == d;
  }

  // ---------------------------------------------------------------------
  // Scanning the sequence

  /** What loading a file yields: its size, colour components and depth. */
  datatype ImageInfo = ImageInfo(width: nat, height: nat, components: nat, depth: int)

  /** The file of frame `i`. */
  function FrameFile(filePath: string, prefix: string, f: DecFormat, i: int, ext: string): string
  {
    filePath + prefix + Sprintf(f, i) + "." + ext
  }

  datatype Axis = Horizontal | Vertical

  function PastEdgeMessage(a: Axis): string
  {
    if a == Horizontal then "ox > image width" else "oy > image height"
  }

  function InconsistentMessage(a: Axis): string
  {
    if a == Horizontal then "inconsistent image width" else "inconsistent image height"
  }

  /** One axis of the per-image size check, as written. `seen` is the size
      recorded so far (0 for none), `frame` the requested frame size (0 for
      the whole image), `offset` the read offset. The first image fixes the
      size and clamps the frame to fit; a frame given with an offset past
      the image edge is clamped to a negative size. */
  function FitAxisAsWritten(a: Axis, seen: int, frame: int, offset: int, image: nat): (r: Result<(int, int), Exit>)
    ensures r.Ok? && seen != 0 ==> r.value == (seen, frame) && seen == image
    ensures seen != 0 ==> (r.Ok? <==> seen == image)
    ensures seen != 0 && seen != image ==> r == Err(ErrorExit(InconsistentMessage(a)))
    // a requested frame is kept when it fits and otherwise clamped to image - offset,
    // whatever the offset
    ensures seen == 0 && frame > 0 ==>
      r == Ok((image, if image < frame + offset then image - offset else frame))
    // without a requested frame an offset past the edge exits
    ensures seen == 0 && frame <= 0 ==>
      r == if image < frame + offset then Err(ErrorExit(PastEdgeMessage(a))) else Ok((image, frame))
  {
    if seen == 0 then
      if (frame > 0 || offset > 0) && image < frame + offset then
        if frame > 0 then Ok((image, image - offset)) else Err(ErrorExit(PastEdgeMessage(a)))
      else Ok((image, frame))
    else if seen != image then Err(ErrorExit(InconsistentMessage(a)))
    else Ok((seen, frame))
  }

  /** A 10-pixel frame read from offset 50 of a 40-pixel image passes the
      check with a frame size of -10, so the write size is negative. */
  lemma FrameClampGoesNegative()
    ensures FitAxisAsWritten(Horizontal, 0, 10, 50, 40) == Ok((40, -10))
    ensures WriteSize(-10, 50, 40) == -10
  {
  }

  /** The check with the offset tested on both branches: a frame is clamped
      only when the offset is still inside the image, and an offset past
      the edge always exits. */
  function FitAxis(a: Axis, seen: int, frame: int, offset: int, image: nat): (r: Result<(int, int), Exit>)
    ensures r.Ok? && seen != 0 ==> r.value == (seen, frame) && seen == image
    ensures r.Ok? && seen == 0 ==> r.value.0 == image
    // with non-negative requests the frame fits the image and is never negative
    ensures r.Ok? && seen == 0 && frame >= 0 && offset >= 0 ==>
      offset <= image && 0 <= r.value.1 && r.value.1 + offset <= image
    ensures seen == 0 && frame >= 0 && offset > image ==> r == Err(ErrorExit(PastEdgeMessage(a)))
    // a request with the offset inside the image is kept when it fits and clamped otherwise
    ensures seen == 0 && frame >= 0 && 0 <= offset <= image ==>
      r == Ok((image, if frame > 0 && image < frame + offset then image - offset else frame))
    ensures seen != 0 ==> (r.Ok? <==> seen == image)
    ensures seen != 0 && seen != image ==> r == Err(ErrorExit(InconsistentMessage(a)))
    ensures r.Ok? <==> AxisAccepts(seen, frame, offset, image)
  {
    if seen == 0 then
      if (frame > 0 || offset > 0) && image < frame + offset then
        if frame > 0 && offset <= image then Ok((image, image - offset)) else Err(ErrorExit(PastEdgeMessage(a)))
      else Ok((image, frame))
    else if seen != image then Err(ErrorExit(InconsistentMessage(a)))
    else Ok((seen, frame))
  }

  /** When the corrected check lets an image through on one axis: a
      recorded size must match; otherwise a requested frame needs its offset
      inside the image, and without one the offset must fit. */
  predicate AxisAccepts(seen: int, frame: int, offset: int, image: nat)
  {
    if seen != 0 then seen == image
    else if frame > 0 then offset <= image
    else frame + offset <= image
  }

  /** The corrected check differs from the source only where the source
      clamps a frame to a negative size: there it exits instead. */
  lemma FitAxisDiffersOnlyPastEdge(a: Axis, seen: int, frame: int, offset: int, image: nat)
    ensures FitAxis(a, seen, frame, offset, image) != FitAxisAsWritten(a, seen, frame, offset, image)
      <==> seen == 0 && frame > 0 && offset > image
    ensures seen == 0 && frame > 0 && offset > image ==>
      && FitAxis(a, seen, frame, offset, image) == Err(ErrorExit(PastEdgeMessage(a)))
      && FitAxisAsWritten(a, seen, frame, offset, image).value.1 < 0
  {
  }

  /** Where the scan stands: frames found, first components and depth,
      recorded image size and the (possibly clamped) frame size. */
  datatype ScanState = ScanState(found: nat, components: nat, depth: int, imgW: int, imgH: int, frameWidth: int, frameHeight: int)

  /** The request fits the recorded image: offsets inside it and frames
      that end inside it. */
  predicate Fits(st: ScanState, ox: int, oy: int)
  {
    && (st.imgW != 0 ==> ox <= st.imgW && (st.frameWidth > 0 ==> st.frameWidth + ox <= st.imgW))
    && (st.imgH != 0 ==> oy <= st.imgH && (st.frameHeight > 0 ==> st.frameHeight + oy <= st.imgH))
  }

  /** The number of frames from `i` to the end of the range whose file
      exists and loads. */
  function Loadable(filePath: string, o: Options, n: Numbering, images: map<string, ImageInfo>, i: int): (k: nat)
    ensures k <= if i <= n.seqEnd then n.seqEnd - i + 1 else 0
    decreases n.seqEnd + 1 - i
  {
    if i > n.seqEnd then 0
    else (if FrameFile(filePath, o.seqPrefix, n.format, i, o.seqExt) in images then 1 else 0)
         + Loadable(filePath, o, n, images, i + 1)
  }

  /** The exits of the per-image size check; none of them is the "no files"
      exit. */
  predicate SizeExit(e: Exit): (b: bool)
    ensures b ==> e != ErrorExit(NoFilesMessage)
  {
    || e == ErrorExit(PastEdgeMessage(Horizontal)) || e == ErrorExit(PastEdgeMessage(Vertical))
    || e == ErrorExit(InconsistentMessage(Horizontal)) || e == ErrorExit(InconsistentMessage(Vertical))
  }

  /** The file-count loop from frame `i` to `seqEnd`. Missing or unloadable
      files are skipped; every loaded image is size-checked. */
  function ScanFrom(filePath: string, o: Options, n: Numbering, images: map<string, ImageInfo>, st: ScanState, i: int)
    : (r: Result<ScanState, Exit>)
    requires st.frameWidth >= 0 && st.frameHeight >= 0 && o.offsetX >= 0 && o.offsetY >= 0 ==> Fits(st, o.offsetX, o.offsetY)
    // found counts loaded frames: never more than the frames left in the range
    ensures r.Ok? ==> st.found <= r.value.found <= st.found + (if i <= n.seqEnd then n.seqEnd - i + 1 else 0)
    // sizes, once recorded, stay; every loaded image of nonzero size has the recorded size
    ensures r.Ok? && st.imgW != 0 ==> r.value.imgW == st.imgW
    ensures r.Ok? && st.imgH != 0 ==> r.value.imgH == st.imgH
    // non-negative requests keep fitting, and frame sizes stay non-negative
    ensures r.Ok? && st.frameWidth >= 0 && st.frameHeight >= 0 && o.offsetX >= 0 && o.offsetY >= 0 ==>
      Fits(r.value, o.offsetX, o.offsetY) && r.value.frameWidth >= 0 && r.value.frameHeight >= 0
    // exactly the frames whose file loads are counted
    ensures r.Ok? ==> r.value.found == st.found + Loadable(filePath, o, n, images, i)
    // with nothing to load the scan changes nothing; it exits only on a size check
    ensures Loadable(filePath, o, n, images, i) == 0 ==> r == Ok(st)
    ensures r.Err? ==> SizeExit(r.error)
    ensures r.Ok? && st.components != 0 ==> r.value.components == st.components
    decreases n.seqEnd + 1 - i
  {
    if i > n.seqEnd then Ok(st)
    else
      var name := FrameFile(filePath, o.seqPrefix, n.format, i, o.seqExt);
      if name !in images then ScanFrom(filePath, o, n, images, st, i + 1)
      else
        match ScanImage(st, images[name], o.offsetX, o.offsetY)
        case Err(e) => Err(e)
        case Ok(st') => ScanFrom(filePath, o, n, images, st', i + 1)
  }

  /** A loaded image of nonzero size has the recorded size. */
  predicate SizeAgrees(info: ImageInfo, st: ScanState)
  {
    (info.width == 0 || info.width == st.imgW) && (info.height == 0 || info.height == st.imgH)
  }

  /** Every frame of the rest of the range that loads with a nonzero size
      has the size the scan ends up recording: a differing image exits. */
  lemma {:induction false} ScanSizesAgree(filePath: string, o: Options, n: Numbering, images: map<string, ImageInfo>,
                                          st: ScanState, i: int)
    requires st.frameWidth >= 0 && st.frameHeight >= 0 && o.offsetX >= 0 && o.offsetY >= 0 ==> Fits(st, o.offsetX, o.offsetY)
    ensures var r := ScanFrom(filePath, o, n, images, st, i);
      r.Ok? ==> forall j :: i <= j <= n.seqEnd && FrameFile(filePath, o.seqPrefix, n.format, j, o.seqExt) in images ==>
        SizeAgrees(images[FrameFile(filePath, o.seqPrefix, n.format, j, o.seqExt)], r.value)
    decreases n.seqEnd + 1 - i
  {
    if i <= n.seqEnd {
      var name := FrameFile(filePath, o.seqPrefix, n.format, i, o.seqExt);
      if name !in images {
        ScanSizesAgree(filePath, o, n, images, st, i + 1);
      } else {
        var s1 := ScanImage(st, images[name], o.offsetX, o.offsetY);
        if s1.Ok? {
          ScanSizesAgree(filePath, o, n, images, s1.value, i + 1);
          var r := ScanFrom(filePath, o, n, images, s1.value, i + 1);
          assert r == ScanFrom(filePath, o, n, images, st, i);
          if r.Ok? {
            assert SizeAgrees(images[name], s1.value);
            assert s1.value.imgW != 0 ==> r.value.imgW == s1.value.imgW;
            assert s1.value.imgH != 0 ==> r.value.imgH == s1.value.imgH;
          }
        }
      }
    }
  }

  /** A range whose loadable frames all have one nonzero size and nonzero
      components, with a request that fits that size, is scanned without an
      exit, and components are detected once a frame has loaded. */
  lemma {:induction false} ScanSucceeds(filePath: string, o: Options, n: Numbering, images: map<string, ImageInfo>,
                                        st: ScanState, i: int, w: nat, h: nat)
    requires st.frameWidth >= 0 && st.frameHeight >= 0 && o.offsetX >= 0 && o.offsetY >= 0 ==> Fits(st, o.offsetX, o.offsetY)
    requires w > 0 && h > 0
    requires forall j :: i <= j <= n.seqEnd && FrameFile(filePath, o.seqPrefix, n.format, j, o.seqExt) in images ==>
      SameSize(images[FrameFile(filePath, o.seqPrefix, n.format, j, o.seqExt)], w, h)
    requires AxisAccepts(st.imgW, st.frameWidth, o.offsetX, w) && AxisAccepts(st.imgH, st.frameHeight, o.offsetY, h)
    ensures var r := ScanFrom(filePath, o, n, images, st, i);
      r.Ok? && (st.components != 0 || Loadable(filePath, o, n, images, i) > 0 ==> r.value.components != 0)
    decreases n.seqEnd + 1 - i
  {
    if i <= n.seqEnd {
      var name := FrameFile(filePath, o.seqPrefix, n.format, i, o.seqExt);
      if name !in images {
        ScanSucceeds(filePath, o, n, images, st, i + 1, w, h);
      } else {
        var s1 := ScanImage(st, images[name], o.offsetX, o.offsetY);
        assert s1.Ok?;
        ScanSucceeds(filePath, o, n, images, s1.value, i + 1, w, h);
      }
    }
  }

  /** An image of the given nonzero size with colour components. */
  predicate SameSize(info: ImageInfo, w: nat, h: nat)
  {
    info.width == w && info.height == h && info.components > 0
  }

  /** One loaded image in the file-count loop: the first image fixes the
      components and depth, and both axes are size-checked. */
  function ScanImage(st: ScanState, info: ImageInfo, ox: int, oy: int): (r: Result<ScanState, Exit>)
    requires st.frameWidth >= 0 && st.frameHeight >= 0 && ox >= 0 && oy >= 0 ==> Fits(st, ox, oy)
    ensures r.Ok? ==> r.value.found == st.found + 1
    ensures r.Ok? ==> r.value.imgW == info.width && r.value.imgH == info.height
    ensures r.Ok? && st.imgW != 0 ==> r.value.imgW == st.imgW
    ensures r.Ok? && st.imgH != 0 ==> r.value.imgH == st.imgH
    ensures r.Ok? && st.frameWidth >= 0 && st.frameHeight >= 0 && ox >= 0 && oy >= 0 ==>
      Fits(r.value, ox, oy) && r.value.frameWidth >= 0 && r.value.frameHeight >= 0
    // the image is accepted exactly when both axes accept it; otherwise a size check exits
    ensures r.Ok? <==> AxisAccepts(st.imgW, st.frameWidth, ox, info.width) && AxisAccepts(st.imgH, st.frameHeight, oy, info.height)
    ensures r.Err? ==> SizeExit(r.error)
    // the first image with components fixes components and depth
    ensures r.Ok? && st.components != 0 ==> r.value.components == st.components && r.value.depth == st.depth
    ensures r.Ok? && st.components == 0 ==> r.value.components == info.components && r.value.depth == info.depth
  {
    var comps := if st.components == 0 then info.components else st.components;
    var depth := if st.components == 0 then info.depth else st.depth;
    match FitAxis(Horizontal, st.imgW, st.frameWidth, ox, info.width)
    case Err(e) => Err(e)
    case Ok(w) =>
      match FitAxis(Vertical, st.imgH, st.frameHeight, oy, info.height)
      case Err(e) => Err(e)
      case Ok(h) => Ok(ScanState(st.found + 1, comps, depth, w.0, h.0, w.1, h.1))
  }

  // ---------------------------------------------------------------------
  // Layout

  /** `(int)ceil(sqrt(n))`, exact for the counts involved. */
  function CeilSqrt(n: nat): (s: nat)
    requires n >= 1
    ensures s >= 1 && n <= s * s && (s - 1) * (s - 1) < n
  {
    CeilSqrtFrom(n, 1)
  }

  function CeilSqrtFrom(n: nat, k: nat): (s: nat)
    requires 1 <= k && (k - 1) * (k - 1) < n
    ensures s >= k && n <= s * s && (s - 1) * (s - 1) < n
    decreases n - k
  {
    if n <= k * k then k else CeilSqrtFrom(n, k + 1)
  }

  /** `(int)ceil((float)a / (float)b)`, exact for the counts involved. */
  function CeilDiv(a: nat, b: nat): (q: nat)
    requires b >= 1
    ensures q * b >= a && (q - 1) * b < a
  {
    var q := (a + b - 1) / b;
    assert q * b <= a + b - 1 < q * b + b;
    q
  }

  datatype Grid = Grid(rows: int, cols: int)

  function Tiles(g: Grid): int { g.rows * g.cols }

  /** `(int)(sqrtNum / 1.5f)`. */
  function MinRows(s: nat): nat { (2 * s) / 3 }

  /** Candidate `i`: `s - i` rows and as many columns as the count needs. */
  function Candidate(n: nat, s: nat, i: nat): (g: Grid)
    requires n >= 1 && i < s
    ensures g.rows == s - i && g.rows >= 1 && g.cols >= 1
    ensures Tiles(g) >= n && Tiles(g) - n < g.rows
  {
    var c := CeilDiv(n, s - i);
    assert c >= 1;
    Grid(s - i, c)
  }

  /** The search over candidates `i .. MinRows(s) - 1`, keeping the first
      candidate with the fewest tiles. */
  function LayoutFrom(n: nat, s: nat, i: nat, best: Grid): (g: Grid)
    requires n >= 1 && 1 <= i && MinRows(s) < s
    ensures g == best || exists j :: i <= j < MinRows(s) && g == Candidate(n, s, j)
    ensures Tiles(g) <= Tiles(best)
    ensures forall j :: i <= j < MinRows(s) ==> Tiles(g) <= Tiles(Candidate(n, s, j))
    // ties keep the earlier candidate: anything found strictly beats what came before
    ensures g != best ==> Tiles(g) < Tiles(best)
    decreases MinRows(s) - i
  {
    if i >= MinRows(s) then best
    else
      var c := Candidate(n, s, i);
      LayoutFrom(n, s, i + 1, if Tiles(c) < Tiles(best) then c else best)
  }

  /** The layout for `n` frames: the first candidate from sqrt(n) rows
      downwards with the fewest tiles. */
  function Layout(n: nat): (g: Grid)
    requires n >= 1
    ensures g.rows >= 1 && g.cols >= 1
    ensures Tiles(g) >= n && Tiles(g) - n < g.rows
    ensures forall j :: 0 <= j < MinRows(CeilSqrt(n)) ==> Tiles(g) <= Tiles(Candidate(n, CeilSqrt(n), j))
    ensures Tiles(g) <= Tiles(Candidate(n, CeilSqrt(n), 0))
    // the result is one of the searched candidates
    ensures var s := CeilSqrt(n);
      g == Candidate(n, s, 0) || exists j :: 1 <= j < MinRows(s) && g == Candidate(n, s, j)
    // rows stay above sqrt(n) - sqrt(n)/1.5, so two or more frames never make a single row
    ensures g.rows <= CeilSqrt(n)
    ensures n >= 2 ==> CeilSqrt(n) - MinRows(CeilSqrt(n)) < g.rows
    ensures n >= 2 ==> g.rows >= 2
  {
    var s := CeilSqrt(n);
    assert n >= 2 ==> s >= 2;
    LayoutFrom(n, s, 1, Candidate(n, s, 0))
  }

  // ---------------------------------------------------------------------
  // Tiles and pixels

  /** The tile of frame `f`: row-major from the first index. */
  function TileOf(seqStart: int, cols: int, f: int): (rc: (int, int))
    requires cols >= 1 && f >= seqStart
    ensures 0 <= rc.0 && 0 <= rc.1 < cols
    ensures seqStart + rc.0 * cols + rc.1 == f
  {
    ((f - seqStart) / cols, (f - seqStart) % cols)
  }

  /** The frame the packing loop reads for tile (r, c). */
  function FrameAt(seqStart: int, cols: int, r: int, c: int): int
  {
    seqStart + r * cols + c
  }

  /** Tiles and frames correspond one to one. */
  lemma TileFrameRoundTrip(seqStart: int, cols: int, r: int, c: int, f: int)
    requires cols >= 1 && 0 <= r && 0 <= c < cols && f >= seqStart
    ensures TileOf(seqStart, cols, FrameAt(seqStart, cols, r, c)) == (r, c)
    ensures FrameAt(seqStart, cols, TileOf(seqStart, cols, f).0, TileOf(seqStart, cols, f).1) == f
  {
    var k := r * cols + c;
    assert k / cols == r && k % cols == c by {
      DivModUnique(k, cols, r, c);
    }
  }

  lemma DivModUnique(k: int, cols: int, r: int, c: int)
    requires cols >= 1 && 0 <= c < cols && k == r * cols + c
    ensures k / cols == r && k % cols == c
  {
    var q := k / cols;
    var m := k % cols;
    assert (q - r) * cols == c - m;
    SmallMultiple(q - r, cols);
  }

  /** A multiple of `cols` strictly between -cols and cols is zero. */
  lemma SmallMultiple(d: int, cols: int)
    requires cols >= 1 && -cols < d * cols < cols
    ensures d == 0
  {
  }

  /** The frame is packed exactly when its tile falls inside the grid. */
  predicate Packed(seqStart: int, seqEnd: int, g: Grid, f: int)
  {
    seqStart <= f <= seqEnd && f - seqStart < Tiles(g)
  }

  /** The read and write sizes of one frame. */
  function ReadEnd(frame: int, offset: int, image: int): int
  {
    if frame > 0 then offset + frame else image
  }

  function WriteSize(frame: int, offset: int, image: int): (w: int)
    ensures w == ReadEnd(frame, offset, image) - offset
  {
    if frame > 0 then frame else image - offset
  }

  /** With the frame fitted to the image, the read window lies inside the
      image and is as wide as the tile. */
  lemma ReadWindowInsideImage(frame: int, offset: int, image: int)
    requires 0 <= offset <= image && 0 <= frame && (frame > 0 ==> frame + offset <= image)
    ensures 0 <= offset <= ReadEnd(frame, offset, image) <= image
    ensures WriteSize(frame, offset, image) >= 0
  {
  }

  /** Where source pixel (xr, yr) of the frame in tile (r, c) is written. */
  function PixelTarget(xr: int, yr: int, ox: int, oy: int, r: int, c: int, writeW: int, writeH: int): (t: (int, int))
    requires ox <= xr < ox + writeW && oy <= yr < oy + writeH && 0 <= r && 0 <= c
    ensures c * writeW <= t.0 < (c + 1) * writeW
    ensures r * writeH <= t.1 < (r + 1) * writeH
  {
    (xr - ox + c * writeW, yr - oy + r * writeH)
  }

  /** Blocks `a` and `b` of width `w` do not overlap: a point of an earlier
      block lies left of every point of a later one. */
  lemma BlocksOrdered(a: int, b: int, w: int, x1: int, x2: int)
    requires a < b && a * w <= x1 < (a + 1) * w && b * w <= x2
    ensures x1 < x2
  {
    assert (a + 1) * w == a * w + w;
    MulMonotone(a + 1, b, w);
  }

  /** A point of block `a` of width `w` lies inside `n` blocks when a < n. */
  lemma BlockInside(a: int, n: int, w: int, x: int)
    requires 0 <= a < n && a * w <= x < (a + 1) * w
    ensures 0 <= x < n * w
  {
    assert (a + 1) * w == a * w + w;
    MulMonotone(0, a, w);
    MulMonotone(a + 1, n, w);
  }

  /** Different source pixels, or pixels of different tiles, never land on
      the same packed pixel, and everything lands inside the packed image. */
  lemma PixelTargetsDisjoint(g: Grid, ox: int, oy: int, writeW: int, writeH: int,
                             xr1: int, yr1: int, r1: int, c1: int, xr2: int, yr2: int, r2: int, c2: int)
    requires ox <= xr1 < ox + writeW && oy <= yr1 < oy + writeH && 0 <= r1 < g.rows && 0 <= c1 < g.cols
    requires ox <= xr2 < ox + writeW && oy <= yr2 < oy + writeH && 0 <= r2 < g.rows && 0 <= c2 < g.cols
    requires (xr1, yr1, r1, c1) != (xr2, yr2, r2, c2)
    ensures PixelTarget(xr1, yr1, ox, oy, r1, c1, writeW, writeH) != PixelTarget(xr2, yr2, ox, oy, r2, c2, writeW, writeH)
    ensures var t := PixelTarget(xr1, yr1, ox, oy, r1, c1, writeW, writeH);
      0 <= t.0 < g.cols * writeW && 0 <= t.1 < g.rows * writeH
  {
    var t1 := PixelTarget(xr1, yr1, ox, oy, r1, c1, writeW, writeH);
    var t2 := PixelTarget(xr2, yr2, ox, oy, r2, c2, writeW, writeH);
    if c1 < c2 {
      BlocksOrdered(c1, c2, writeW, t1.0, t2.0);
    } else if c2 < c1 {
      BlocksOrdered(c2, c1, writeW, t2.0, t1.0);
    } else if r1 < r2 {
      BlocksOrdered(r1, r2, writeH, t1.1, t2.1);
    } else if r2 < r1 {
      BlocksOrdered(r2, r1, writeH, t2.1, t1.1);
    }
    BlockInside(c1, g.cols, writeW, t1.0);
    BlockInside(r1, g.rows, writeH, t1.1);
  }

  // ---------------------------------------------------------------------
  // Output

  datatype SaveFormat = Jpg | Png | Tga | Bmp

  /** The output extension: -outx when given, else the input extension. */
  function OutputExt(o: Options): (ext: string)
    ensures o.outExt != "" ==> ext == o.outExt
    ensures o.outExt == "" ==> ext == o.seqExt
  {
    if o.outExt != "" then o.outExt else o.seqExt
  }

  function OutputName(filePath: string, o: Options): (name: string)
    ensures name == filePath + o.seqPrefix + "SEQ." + OutputExt(o)
  {
    filePath + o.seqPrefix + "SEQ." + OutputExt(o)
  }

  /** The sheet never takes the name of one of its own frames, whatever
      the extensions: after the shared folder and prefix the sheet's name
      goes on with "SEQ", a frame's name with a pad space, a sign or a digit. */
  lemma OutputNameIsNoFrame(filePath: string, o: Options, f: DecFormat, i: int, ext: string)
    ensures OutputName(filePath, o) != FrameFile(filePath, o.seqPrefix, f, i, ext)
  {
    var p := filePath + o.seqPrefix;
    SprintfHead(f, i);
    assert OutputName(filePath, o)[|p|] == 'S';
    assert FrameFile(filePath, o.seqPrefix, f, i, ext)[|p|] == Sprintf(f, i)[0];
  }

  /** The dispatch as written: each branch tests `Compare(...)` for truth,
      and Compare is zero when the strings are equal. */
  function OutputFormatAsWritten(ext: string): (r: Option<SaveFormat>)
  {
    if CompareNoCase(ext, "JPG") != 0 then Some(Jpg)
    else if CompareNoCase(ext, "PNG") != 0 then Some(Png)
    else if CompareNoCase(ext, "TGA") != 0 then Some(Tga)
    else if CompareNoCase(ext, "BMP") != 0 then Some(Bmp)
    else None
  }

  lemma LowerLiterals()
    ensures Lower("JPG") == "jpg" && Lower("PNG") == "png" && Lower("TGA") == "tga" && Lower("BMP") == "bmp"
    ensures Lower("png") == "png" && Lower("jpg") == "jpg"
  {
  }

  /** As written every extension but "jpg" is saved as JPEG, "jpg" itself
      as PNG, and TGA and BMP are never chosen: a "png" output is JPEG data. */
  lemma OutputDispatchInverted(ext: string)
    ensures OutputFormatAsWritten(ext) == if Lower(ext) == "jpg" then Some(Png) else Some(Jpg)
    ensures OutputFormatAsWritten("png") == Some(Jpg)
  {
    LowerLiterals();
  }

  /** The dispatch by equality ignoring case; other extensions are not saved. */
  function OutputFormat(ext: string): (r: Option<SaveFormat>)
    ensures r == Some(Jpg) <==> Lower(ext) == "jpg"
    ensures r == Some(Png) <==> Lower(ext) == "png"
    ensures r == Some(Tga) <==> Lower(ext) == "tga"
    ensures r == Some(Bmp) <==> Lower(ext) == "bmp"
    ensures r.None? <==> Lower(ext) !in {"jpg", "png", "tga", "bmp"}
  {
    LowerLiterals();
    if CompareNoCase(ext, "JPG") == 0 then Some(Jpg)
    else if CompareNoCase(ext, "PNG") == 0 then Some(Png)
    else if CompareNoCase(ext, "TGA") == 0 then Some(Tga)
    else if CompareNoCase(ext, "BMP") == 0 then Some(Bmp)
    else None
  }

  // ---------------------------------------------------------------------
  // The whole run

  /** What a successful run writes: the packed grid, the frame geometry, the
      frames placed and where the result goes. */
  datatype Plan = Plan(
    options: Options,
    filePath: string,
    numbering: Numbering,
    found: nat,
    grid: Grid,
    components: nat,
    readEndW: int,
    readEndH: int,
    writeW: int,
    writeH: int,
    outName: string,
    saveAs: Option<SaveFormat>)

  /** The layout as written is sized by the number of frames found, while
      frames are placed by their index in the range. */
  function GridAsWritten(found: nat, n: Numbering): Grid
    requires found >= 1
  {
    Layout(found)
  }

  /** Sized by the length of the range, so that every index has a tile. */
  function GridFor(n: Numbering): (g: Grid)
    requires n.seqStart <= n.seqEnd
    ensures forall f :: n.seqStart <= f <= n.seqEnd ==> Packed(n.seqStart, n.seqEnd, g, f)
  {
    Layout(n.seqEnd - n.seqStart + 1)
  }

  /** Frames 0..10 with only 0, 1, 2, 3 and 10 present: five frames found
      give a 3 by 2 grid, and frame 10 has no tile. */
  lemma MissingFramesDropLastFrame()
    ensures var g := GridAsWritten(5, Numbering(0, 10, DecFormat(1, false)));
      g == Grid(3, 2) && !Packed(0, 10, g, 10)
  {
    assert CeilSqrtFrom(5, 3) == 3;
    assert CeilSqrtFrom(5, 2) == 3;
    assert CeilSqrt(5) == 3;
    assert CeilDiv(5, 3) == 2;
    assert CeilDiv(5, 2) == 3;
    assert Candidate(5, 3, 0) == Grid(3, 2);
    assert Candidate(5, 3, 1) == Grid(2, 3);
    assert LayoutFrom(5, 3, 2, Grid(3, 2)) == Grid(3, 2);
  }

  const NoFilesMessage: string := "didn't find any files to open"

  /** Run up to the save, with the corrected argument count, size check,
      layout and output dispatch. */
  function Pack(args: seq<string>, dirs: set<string>, images: map<string, ImageInfo>): (r: Result<Plan, Exit>)
    ensures |args| < MinArgs ==> r == Err(HelpExit(MissingArgsMessage))
    ensures r.Ok? ==> ParseArgs(args) == Ok(r.value.options) && Validate(r.value.options) == Ok(r.value.numbering)
    ensures r.Ok? ==> var p := r.value;
      forall f :: p.numbering.seqStart <= f <= p.numbering.seqEnd ==>
        Packed(p.numbering.seqStart, p.numbering.seqEnd, p.grid, f)
    ensures r.Ok? ==> r.value.found >= 1 && r.value.components != 0
    ensures r.Ok? ==>
      && r.value.readEndW - r.value.options.offsetX == r.value.writeW
      && r.value.readEndH - r.value.options.offsetY == r.value.writeH
    ensures r.Ok? ==> r.value.saveAs == OutputFormat(OutputExt(r.value.options))
    // past parsing and validation the run is the scan-and-layout stage
    ensures ParseArgs(args).Ok? && Validate(ParseArgs(args).value).Ok? ==>
      var o := ParseArgs(args).value;
      r == PackValidated(o, Validate(o).value, FilePath(o.inputPath, dirs), images)
  {
    match ParseArgs(args)
    case Err(e) => Err(e)
    case Ok(o) =>
      match Validate(o)
      case Err(e) => Err(e)
      case Ok(n) => PackValidated(o, n, FilePath(o.inputPath, dirs), images)
  }

  /** The stage after validation, in the input folder `filePath`: scan the
      range, require a frame and components, lay out the grid and name the
      output. */
  function PackValidated(o: Options, n: Numbering, filePath: string, images: map<string, ImageInfo>): (r: Result<Plan, Exit>)
    requires Validate(o) == Ok(n)
    ensures r.Ok? ==> r.value.options == o && r.value.numbering == n
    // every frame of the range has a tile inside the grid
    ensures r.Ok? ==> forall f :: n.seqStart <= f <= n.seqEnd ==> Packed(n.seqStart, n.seqEnd, r.value.grid, f)
    // the plan counts exactly the frames of the range that load, at least one
    ensures r.Ok? ==> 1 <= r.value.found == Loadable(filePath, o, n, images, n.seqStart)
    ensures r.Ok? ==> r.value.components != 0
    // the "no files" exit happens exactly when no frame of the range loads
    ensures r == Err(ErrorExit(NoFilesMessage)) <==> Loadable(filePath, o, n, images, n.seqStart) == 0
    ensures r.Ok? ==> r.value.readEndW - o.offsetX == r.value.writeW && r.value.readEndH - o.offsetY == r.value.writeH
    ensures r.Ok? ==> r.value.saveAs == OutputFormat(OutputExt(o))
  {
    var st0 := ScanState(0, 0, 0, 0, 0, o.frameWidth, o.frameHeight);
    match ScanFrom(filePath, o, n, images, st0, n.seqStart)
    case Err(e) =>
      assert SizeExit(e);
      Err(e)
    case Ok(st) =>
      assert st.found == Loadable(filePath, o, n, images, n.seqStart);
      PlanFrom(o, n, filePath, st)
  }

  /** What follows the scan: the "no files" and "no components" exits, then
      the plan with its grid and output name. */
  function PlanFrom(o: Options, n: Numbering, filePath: string, st: ScanState): (r: Result<Plan, Exit>)
    requires Validate(o) == Ok(n)
    ensures r == Err(ErrorExit(NoFilesMessage)) <==> st.found == 0
    ensures r.Ok? <==> st.found != 0 && st.components != 0
    ensures r.Ok? ==> r.value.options == o && r.value.numbering == n && r.value.filePath == filePath
    ensures r.Ok? ==> r.value.found == st.found && r.value.components == st.components
    ensures r.Ok? ==> forall f :: n.seqStart <= f <= n.seqEnd ==> Packed(n.seqStart, n.seqEnd, r.value.grid, f)
    ensures r.Ok? ==>
      && r.value.readEndW - o.offsetX == r.value.writeW
      && r.value.readEndH - o.offsetY == r.value.writeH
    ensures r.Ok? ==> r.value.saveAs == OutputFormat(OutputExt(o))
  {
    if st.found == 0 then Err(ErrorExit(NoFilesMessage))
    else if st.components == 0 then Err(ErrorExit("image component not detected"))
    else
      Ok(Plan(o, filePath, n, st.found, GridFor(n), st.components,
              ReadEnd(st.frameWidth, o.offsetX, st.imgW), ReadEnd(st.frameHeight, o.offsetY, st.imgH),
              WriteSize(st.frameWidth, o.offsetX, st.imgW), WriteSize(st.frameHeight, o.offsetY, st.imgH),
              OutputName(filePath, o), OutputFormat(OutputExt(o))))
  }

  /** A validated run whose range has a loadable frame, all loadable frames
      of one nonzero size with components, and a request that fits that size
      produces a plan. */
  lemma PackSucceeds(o: Options, n: Numbering, filePath: string, images: map<string, ImageInfo>, w: nat, h: nat)
    requires Validate(o) == Ok(n)
    requires Loadable(filePath, o, n, images, n.seqStart) >= 1
    requires w > 0 && h > 0
    requires forall j :: n.seqStart <= j <= n.seqEnd && FrameFile(filePath, o.seqPrefix, n.format, j, o.seqExt) in images ==>
      SameSize(images[FrameFile(filePath, o.seqPrefix, n.format, j, o.seqExt)], w, h)
    requires AxisAccepts(0, o.frameWidth, o.offsetX, w) && AxisAccepts(0, o.frameHeight, o.offsetY, h)
    ensures PackValidated(o, n, filePath, images).Ok?
  {
    var st0 := ScanState(0, 0, 0, 0, 0, o.frameWidth, o.frameHeight);
    ScanSucceeds(filePath, o, n, images, st0, n.seqStart, w, h);
  }
}
