# Material effects: character, splashes, UV sequencer and image packer

This project models the game logic of the Urho3D "69_MaterialEffects" sample and its
SequenceImagePacker tool, and proves properties of the model in Dafny. It covers
four engine-independent pieces:

- **Character** (`character.dfy`). The per-tick controller:
  - the in-air timer and its soft-grounded window;
  - the jump edge detector (`okToJump_`, `jumpStarted_`);
  - the animation-clip choice;
  - the end-of-tick latch reset;
  - the collision-contact decode that sets the ground and water latches;
  - the footstep decision that raises a Ripple splash event.
- **Splash** (`splash.dfy`). The splash registry and lifecycle:
  - the ten-slot list file and template loading;
  - the event subscription;
  - spawning from the first matching template;
  - the per-tick ageing and Ripple visual update;
  - the erase-with-`--i` sweep of expired instances, on a 32-bit unsigned index.
- **Sequencer** (`sequencer.dfy`). The UV sequencer:
  - the enable toggle;
  - Reset;
  - the frame and image index state machines, which advance on timer expiry and then wrap or stop;
  - the row/column decomposition, with C's truncating division;
  - the decimal-format selection;
  - texture-name construction.
- **Packer** (`packer.dfy`). The pure logic of the image packer's `Run`:
  - argument parsing;
  - range and format validation;
  - input-path normalisation;
  - the scan that counts loadable frames and clamps the frame size;
  - the grid-layout search;
  - the frame-to-tile and pixel-to-pixel maps;
  - the output-format dispatch.
- **Shared pieces** (`base.dfy`, `text.dfy`):
  - optional values, results and vectors;
  - 32-bit unsigned arithmetic;
  - the engine's `ToInt` (base-10 `strtol`);
  - `sprintf` with `%Nd` / `%0Nd`;
  - case-insensitive `Find` and `Compare`.

`scenarios.dfy` connects the components. A footstep in water spawns a Ripple instance through
the splash handler, and that instance lives exactly as long as its configured duration.

Engine services are inputs to the model:

| engine service | how the model receives it |
|---|---|
| downward raycast | a `RayResult` |
| animation controller's at-end query | a boolean |
| sequence timer | its reading in milliseconds |
| in-view test | a boolean |
| resource cache | a map from file name to template |
| file system | a set of existing directories |
| image loader | a map from file name to the loaded image's size, components and depth |

Material writes and animation commands are returned as lists of effects. Engine floats are
modelled as reals. `unsigned` is modelled as integers below 2^32, with wrap-around written out
where the source relies on it.

## Model

| member | source | states |
|---|---|---|
| Base.AddU32 | Source/Samples/69_MaterialEffects/SplashHandler.cpp:105 | unsigned addition: the plain sum below 2^32, the sum less 2^32 otherwise |
| Text.NatToDec | Source/Tools/SequenceImagePacker/SequenceImagePacker.cpp:223-224 | the decimal text of n has at least one digit, reads back as n and has no leading zero unless n is 0 |
| Text.Sprintf | Source/Samples/69_MaterialEffects/UVSequencer.cpp:293-294 | a `%Nd`/`%0Nd` conversion is as wide as the field width or the unpadded number, whichever is longer |
| Text.SprintfShape | Source/Samples/69_MaterialEffects/UVSequencer.cpp:293-294 | every sprintf output is space padding followed by an optional minus sign, zero padding and the digits of the magnitude |
| Text.SprintfHead | Source/Samples/69_MaterialEffects/UVSequencer.cpp:293-294 | sprintf output is never empty and starts with a pad space, a minus sign or a digit |
| Text.SprintfToIntRoundTrip | Source/Tools/SequenceImagePacker/SequenceImagePacker.cpp:223-225 | reading back what sprintf wrote gives the number again, for every width, padding and sign |
| Text.ToIntOfDigits | Source/Tools/SequenceImagePacker/SequenceImagePacker.cpp:162-168 | ToInt of a digit string is the string's decimal value |
| Text.ToIntOfNegatedDigits | Source/Tools/SequenceImagePacker/SequenceImagePacker.cpp:162-168 | a minus sign followed by digits reads as the negated decimal value |
| Text.ToIntStopsAtNonDigit | Source/Tools/SequenceImagePacker/SequenceImagePacker.cpp:162-168 | digits followed by a non-digit read as the value of the digits alone |
| Text.ToIntWithoutDigits | Source/Tools/SequenceImagePacker/SequenceImagePacker.cpp:189 | a string with no digit after its white space and optional sign, the empty string among them, reads as 0 |
| Text.ToIntSkipsPadding | Source/Tools/SequenceImagePacker/SequenceImagePacker.cpp:162-168 | leading spaces do not change the value read |
| Text.DecFormatFor | Source/Samples/69_MaterialEffects/UVSequencer.cpp:302-320 | the width table: 1 selects width 1 and never pads with zeros; 2 selects width 2; anything else selects width 3; zero padding exactly when asked and the width is not 1 |
| Text.FormatStringRoundTrip | Source/Samples/69_MaterialEffects/UVSequencer.cpp:304-308 | a format string such as "%03d" determines its conversion: parsing the string written for a conversion gives it back |
| Text.FindNoCase | Source/Samples/69_MaterialEffects/Character.cpp:294 | the result is the first position at or after `start` where the pattern occurs ignoring case; no result means it occurs nowhere there |
| Text.CompareNoCase | Source/Tools/SequenceImagePacker/SequenceImagePacker.cpp:410 | the comparison is zero exactly when the strings are equal ignoring ASCII case |
| Splash.TypeOf | Source/Samples/69_MaterialEffects/SplashHandler.h:34-42 | integers 0..5 name the enumerators Invalid..MAX, each of which has the value it names; other integers name none |
| Splash.TypeValueRoundTrip | Source/Samples/69_MaterialEffects/SplashHandler.h:34-42 | every enumerator reads back from its value, and Ripple is exactly the value 2 |
| Splash.Copy | Source/Samples/69_MaterialEffects/SplashHandler.h:62-81 | every configuration field comes from the source object; elapsed time, image index, u/v and node are kept |
| Splash.ListLoadXml | Source/Samples/69_MaterialEffects/SplashHandler.cpp:279-296 | fails exactly when the base load fails; otherwise yields the ten items item00..item09 in order |
| Splash.TemplatesAppend | Source/Samples/69_MaterialEffects/SplashHandler.cpp:75-90 | registration follows list order: a concatenated list registers the first part's templates, then the second's |
| Splash.TemplatesSingle | Source/Samples/69_MaterialEffects/SplashHandler.cpp:79-88 | one entry registers exactly one template when it is non-empty, resolves and loads; none otherwise |
| Splash.LoadSplashList | Source/Samples/69_MaterialEffects/SplashHandler.cpp:66-98 | always reports success; appends the templates of the usable entries in list order; live instances unchanged; subscribed exactly when it already was or some template is registered |
| Splash.FindTemplate | Source/Samples/69_MaterialEffects/SplashHandler.cpp:163-165 | the index found is the first at or after `from` with the event's type; none means no template of that type there |
| Splash.CreateDrawableObj | Source/Samples/69_MaterialEffects/SplashHandler.cpp:184-214 | always succeeds; a Ripple gets one enabled billboard sized from `scale` with the cloned material's alpha; node position, direction and configuration unchanged |
| Splash.Spawn | Source/Samples/69_MaterialEffects/SplashHandler.cpp:167-174 | the instance copies the template's configuration, starts at elapsed 0 and sits at the event position facing down, whatever the event direction |
| Splash.HandleSplashEvent | Source/Samples/69_MaterialEffects/SplashHandler.cpp:154-182 | the live list grows by at most one instance and only at its end; it grows exactly when some template has the event's type, and the new instance is spawned from the first such template; templates unchanged |
| Splash.Dispatch | Source/Samples/69_MaterialEffects/SplashHandler.cpp:93-96 | an unsubscribed handler ignores the event; with no templates nothing is spawned |
| Splash.TickMs | Source/Samples/69_MaterialEffects/SplashHandler.cpp:105 | the tick in milliseconds is the time step times 1000, truncated |
| Splash.UpdateVisual | Source/Samples/69_MaterialEffects/SplashHandler.cpp:116-137 | Ripple billboard size scaled componentwise by scaleRate.x/y, alpha by transparencyRate; other kinds unchanged; configuration, elapsed time and node placement kept |
| Splash.Age | Source/Samples/69_MaterialEffects/SplashHandler.cpp:104-108 | elapsed time grows by the tick modulo 2^32 and, without wrap, never decreases; an expired instance keeps its visual state |
| Splash.AgeAll | Source/Samples/69_MaterialEffects/SplashHandler.cpp:102-138 | the first loop ages every instance, in place |
| Splash.LiveMembers | Source/Samples/69_MaterialEffects/SplashHandler.cpp:141-151 | the sweep keeps exactly the instances that are not expired |
| Splash.LiveAppend | Source/Samples/69_MaterialEffects/SplashHandler.cpp:141-151 | the sweep keeps relative order: it distributes over concatenation |
| Splash.SweepStep | Source/Samples/69_MaterialEffects/SplashHandler.cpp:143-150 | one loop step either erases the examined instance or keeps it, and in both cases the list stays "survivors so far + unexamined rest" |
| Splash.DecThenInc | Source/Samples/69_MaterialEffects/SplashHandler.cpp:149 | `--i` then `++i` on an unsigned index restores it, including the wrap at 0 |
| Splash.SweepExpired | Source/Samples/69_MaterialEffects/SplashHandler.cpp:140-151 | the erase loop with the unsigned `--i` leaves exactly the filtered list: the unexpired instances in their original order |
| Splash.FixedUpdate | Source/Samples/69_MaterialEffects/SplashHandler.cpp:100-152 | with the corrected visual update (see Findings): after the tick no live instance is expired, every aged instance still within its duration survives, and templates and subscription are unchanged |
| Splash.UpdateVisualAsWritten | Source/Samples/69_MaterialEffects/SplashHandler.cpp:111-114 | the update as written faults exactly for an instance without a billboard, and otherwise agrees with the corrected update |
| Splash.WaterSplashFaults | Source/Samples/69_MaterialEffects/SplashHandler.cpp:111-119 | a spawned Water instance, one tick old and within its duration, reaches the null billboard-set dereference |
| Splash.UpdateVisualCorrected | Source/Samples/69_MaterialEffects/SplashHandler.cpp:116-137 | for spawned Ripples the corrected update equals the source's; other spawned kinds are left unchanged |
| Character.EncodeContacts | Source/Samples/69_MaterialEffects/Character.cpp:262-265 | each contact record is eight float words |
| Character.DecodeContacts | Source/Samples/69_MaterialEffects/Character.cpp:258-265 | a buffer of whole records decodes to one contact per eight words |
| Character.DecodeEncode | Source/Samples/69_MaterialEffects/Character.cpp:258-265 | decoding recovers every encoded record |
| Character.EncodeDecode | Source/Samples/69_MaterialEffects/Character.cpp:258-265 | re-encoding the decoded records gives the buffer back, so no word is skipped |
| Character.ScanSolid | Source/Samples/69_MaterialEffects/Character.cpp:260-283 | on a solid body the ground latch ends set exactly when it was set or some contact below the head has normal.y > 0.75; nothing else changes |
| Character.ScanWater | Source/Samples/69_MaterialEffects/Character.cpp:260-283 | in water the first contact below the head is latched; the scan stops there; the ground latch is untouched; with no such contact nothing changes |
| Character.HandleNodeCollision | Source/Samples/69_MaterialEffects/Character.cpp:238-284 | non-water triggers change nothing; latches are never cleared; solid bodies set ground iff a standable contact is below the head; water latches the first contact below the head |
| Character.MoveDirection | Source/Samples/69_MaterialEffects/Character.cpp:109-120 | each axis is positive or negative exactly when one key of the pair is held; opposite keys cancel; normalisation applies exactly when the direction is non-zero |
| Character.FallCommands | Source/Samples/69_MaterialEffects/Character.cpp:200-215 | JumpLoop1 is played unless the ray hits within the 0.5 step-down height, in which case nothing is played |
| Character.FixedUpdate | Source/Samples/69_MaterialEffects/Character.cpp:88-236 | timer reset on ground, else grows by the step; ground implies soft-grounded; force, braking, impulse, re-arm and isJumping follow the soft window; jumpStarted cleared only at clip end with JumpLoop1; Run iff soft and moving, else Idle; both latches cleared |
| Character.RayIgnoredDuringJumpStart | Source/Samples/69_MaterialEffects/Character.cpp:189-199 | while a jump start is in progress the raycast result has no influence on the tick |
| Character.HeldJumpStaysDisarmed | Source/Samples/69_MaterialEffects/Character.cpp:167-186 | once disarmed, holding jump applies no impulse and stays disarmed over any run of frames |
| Character.HeldJumpAtMostOnce | Source/Samples/69_MaterialEffects/Character.cpp:167-186 | holding jump over any run of frames applies at most one impulse |
| Character.HeldJumpExactlyOnce | Source/Samples/69_MaterialEffects/Character.cpp:169-181 | holding jump from an armed, grounded start applies exactly one impulse, on the first frame |
| Character.AirTimerAccumulates | Source/Samples/69_MaterialEffects/Character.cpp:94-98 | over frames without ground contact the timer grows by the sum of the time steps |
| Character.SendSplashEvent | Source/Samples/69_MaterialEffects/Character.cpp:313-322 | the event carries the given position and direction and the Ripple type |
| Character.HandleAnimationTrigger | Source/Samples/69_MaterialEffects/Character.cpp:286-311 | a splash is sent exactly when the trigger contains "foot" ignoring case, the foot node exists and the character is in water; it is sent at (foot.x, waterContact.y, foot.z) |
| Sequencer.TypeOf | Source/Samples/69_MaterialEffects/UVSequencer.h:34-40 | exactly the integers 0..3 name a sequence type, each with its own value |
| Sequencer.TypeValueRoundTrip | Source/Samples/69_MaterialEffects/UVSequencer.h:34-40 | every sequence type reads back from its value |
| Sequencer.FreshStart | Source/Samples/69_MaterialEffects/UVSequencer.cpp:67-112 | a new sequencer, once started, keeps receiving fixed updates only if it was created enabled, and for the scroll and swap types exactly then; its UV offsets start at zero and an image swap begins at its first image with a format selected |
| Sequencer.SetEnabled | Source/Samples/69_MaterialEffects/UVSequencer.cpp:115-134 | reports a change exactly when the flag differs; then sets the flag and the update mask to it; otherwise changes nothing |
| Sequencer.SetEnabledIdempotent | Source/Samples/69_MaterialEffects/UVSequencer.cpp:117-120 | asking twice for the same flag changes nothing the second time |
| Sequencer.RowCol | Source/Samples/69_MaterialEffects/UVSequencer.cpp:257-263 | with C's truncating / and %: row*cols + col == idx, and the column has the index's sign and is smaller than |cols| |
| Sequencer.RowColInSheet | Source/Samples/69_MaterialEffects/UVSequencer.cpp:257-263 | a frame inside a rows-by-cols sheet has its row below rows and its column below cols, and they are the Euclidean quotient and remainder |
| Sequencer.UpdateUVFrame | Source/Samples/69_MaterialEffects/UVSequencer.cpp:231-255 | nothing happens before expiry; after it the index increments and is shown while below numFrames; it wraps to 0 and is shown when repeating, or updates stop with the index at numFrames |
| Sequencer.TextureNameIndex | Source/Samples/69_MaterialEffects/UVSequencer.cpp:293-295 | the name starts with the prefix, ends with "." and the extension, and its middle reads back as the image index |
| Sequencer.ShowImage | Source/Samples/69_MaterialEffects/UVSequencer.cpp:291-300 | the texture is bound on the configured unit under the current image's name |
| Sequencer.UpdateSwapImage | Source/Samples/69_MaterialEffects/UVSequencer.cpp:265-289 | an image is shown only below swapEndIdx, or at swapBegIdx after a wrap; without repeat, updates stop |
| Sequencer.InitSwapDecFormat | Source/Samples/69_MaterialEffects/UVSequencer.cpp:168-184 | the image index starts at swapBegIdx; a leading '0' selects zero padding and the rest is the width; otherwise the whole string is the width |
| Sequencer.GetDecFormat | Source/Samples/69_MaterialEffects/UVSequencer.cpp:302-320 | 1 gives "%1d" whatever the flag; 2 gives "%02d"/"%2d"; anything else gives "%03d"/"%3d"; the returned string parses to the conversion of the shared width table |
| Sequencer.SwapFormatWidth | Source/Samples/69_MaterialEffects/UVSequencer.cpp:174-177 | the setting "03" selects %03d, and every index below 1000 then gets exactly three characters |
| Sequencer.Sign | Source/Samples/69_MaterialEffects/UVSequencer.cpp:221 | Sign is 1, -1 or 0 with the sign of its argument |
| Sequencer.ScrollStep | Source/Samples/69_MaterialEffects/UVSequencer.cpp:219-229 | with a non-negative scaled step the offset moves in the direction of the speed, and stays put when the speed is zero |
| Sequencer.Rewind | Source/Samples/69_MaterialEffects/UVSequencer.cpp:139-142 | counters and offsets back to zero, everything else kept |
| Sequencer.Reset | Source/Samples/69_MaterialEffects/UVSequencer.cpp:136-166 | offsets zeroed; the image index is swapBegIdx for the swap type and 0 otherwise; the U/V scroll types write offset 1.0; the swap type selects a format; an unknown type only rewinds |
| Sequencer.DelayedStart | Source/Samples/69_MaterialEffects/UVSequencer.cpp:105-112 | after start the sequencer updates only if it is enabled |
| Sequencer.FixedUpdate | Source/Samples/69_MaterialEffects/UVSequencer.cpp:192-217 | nothing happens out of view, with the mask off, or for an unknown type; configuration, enabled flag and format are never changed and a stopped sequencer stays stopped |
| Sequencer.ValidPreserved | Source/Samples/69_MaterialEffects/UVSequencer.cpp:192-217 | the frame index never goes negative and the image index never below swapBegIdx, under updates and toggles |
| Sequencer.ValidAfterReset | Source/Samples/69_MaterialEffects/UVSequencer.cpp:136-166 | Reset establishes the index invariant |
| Sequencer.FramesStayInSheet | Source/Samples/69_MaterialEffects/UVSequencer.cpp:231-263 | every displayed frame lies inside a sheet large enough for all frames |
| Sequencer.ImagesStayInRange | Source/Samples/69_MaterialEffects/UVSequencer.cpp:265-289 | every shown image lies in [swapBegIdx, swapEndIdx) |
| Sequencer.Expire | Source/Samples/69_MaterialEffects/UVSequencer.cpp:233-253 | repeated expiries never change the configuration or the enabled flag |
| Sequencer.ExpireCounts | Source/Samples/69_MaterialEffects/UVSequencer.cpp:233-238 | from frame 0, k < numFrames expiries show frame k and keep updating |
| Sequencer.ExpireToEnd | Source/Samples/69_MaterialEffects/UVSequencer.cpp:233-253 | from frame 0, numFrames expiries end back at the start state when repeating, and past the last frame with updating stopped otherwise |
| Sequencer.NonRepeatingStops | Source/Samples/69_MaterialEffects/UVSequencer.cpp:241-250 | a non-repeating sequence stops after exactly numFrames expiries with the index at numFrames, still enabled, so SetEnabled(true) reports no change |
| Sequencer.RepeatingCycles | Source/Samples/69_MaterialEffects/UVSequencer.cpp:241-246 | a repeating sequence returns to frame 0 after numFrames expiries |
| Packer.Defaults | Source/Tools/SequenceImagePacker/SequenceImagePacker.cpp:127-143 | before any flag: numbers zero, verbose off, the given input path |
| Packer.FlagOf | Source/Tools/SequenceImagePacker/SequenceImagePacker.cpp:160-169 | an argument recognised as a value flag is exactly that flag's name |
| Packer.FlagRoundTrip | Source/Tools/SequenceImagePacker/SequenceImagePacker.cpp:160-169 | every value flag is recognised from its name |
| Packer.SetOption | Source/Tools/SequenceImagePacker/SequenceImagePacker.cpp:160-169 | storing a flag's value keeps the input path and the verbose flag |
| Packer.ParseFlags | Source/Tools/SequenceImagePacker/SequenceImagePacker.cpp:150-178 | the loop keeps the input path and a set verbose flag, and exits only with help, "Wrong arg order?" or a flag missing its value |
| Packer.UnknownFlagIgnored | Source/Tools/SequenceImagePacker/SequenceImagePacker.cpp:158-173 | an argument starting with '-' that is no known flag is skipped |
| Packer.BareWordRejected | Source/Tools/SequenceImagePacker/SequenceImagePacker.cpp:174-177 | a bare word where a flag is expected exits with "Wrong arg order?" |
| Packer.ParseArgsWith | Source/Tools/SequenceImagePacker/SequenceImagePacker.cpp:116-147 | too few arguments exit with the missing-args help; otherwise argument 0 is the input path |
| Packer.MinimalCommandRejectedAsWritten | Source/Tools/SequenceImagePacker/SequenceImagePacker.cpp:116-120 | as written, the nine-argument command line `frames -sx png -sf 3 -ss 0 -se 10`, whose range and format validate, is refused with the missing-args help |
| Packer.MinimalCommandAccepted | Source/Tools/SequenceImagePacker/SequenceImagePacker.cpp:116-120 | with the input path counted once, a nine-argument command line of -sx, -sf, -ss and -se yields exactly its four options, and with a good range and a one-digit -sf in 1..3 it passes validation with that width, unpadded |
| Packer.ParseRenderRoundTrip | Source/Tools/SequenceImagePacker/SequenceImagePacker.cpp:145-178 | parsing a rendered command line gives back every option, under either guard |
| Packer.SequenceDecFormat | Source/Tools/SequenceImagePacker/SequenceImagePacker.cpp:49-67 | the returned format string parses to the shared width table's conversion |
| Packer.Validate | Source/Tools/SequenceImagePacker/SequenceImagePacker.cpp:180-194 | accepts exactly non-negative start and end at least 2 apart with an -sf width in 1..3; the range check comes first; zero padding exactly with a leading '0' and width not 1 |
| Packer.HelpFormatsAccepted | Source/Tools/SequenceImagePacker/SequenceImagePacker.cpp:85 | the -sf values the help text names (1..3, 01..03) all validate with the width of their digit, padded exactly for 02 and 03 |
| Packer.Slashes | Source/Tools/SequenceImagePacker/SequenceImagePacker.cpp:201 | the path keeps its length and has no backslash left |
| Packer.RemoveTrailingSlash | Source/Tools/SequenceImagePacker/SequenceImagePacker.cpp:201 | the path with forward slashes, less exactly one trailing slash when it ends in one, and unchanged otherwise |
| Packer.AddTrailingSlash | Source/Tools/SequenceImagePacker/SequenceImagePacker.cpp:208 | the result is the forward-slash path, with one '/' appended exactly when the path is non-empty and does not already end in '/'; so a non-empty result ends in '/' and an empty path stays empty |
| Packer.FilePath | Source/Tools/SequenceImagePacker/SequenceImagePacker.cpp:196-209 | empty when the path is empty, a lone slash or not an existing directory; otherwise the directory with its last trailing slash removed, given one '/' back (when it still ends in '/', as for "a//", it is kept as it is) |
| Packer.FilePathIgnoresTrailingSlash | Source/Tools/SequenceImagePacker/SequenceImagePacker.cpp:199-209 | a directory named with or without its trailing slash gives the same folder |
| Packer.DoubledSlashKept | Source/Tools/SequenceImagePacker/SequenceImagePacker.cpp:201-208 | only one trailing slash is removed: "a//" becomes the directory "a/", which is used as the folder unchanged |
| Packer.FitAxisAsWritten | Source/Tools/SequenceImagePacker/SequenceImagePacker.cpp:253-273 | with a size recorded, the image is accepted exactly when it has that size, else the "inconsistent" exit; for the first image a positive frame is kept when frame + offset fits and otherwise set to image - offset, with no check that the result is non-negative; with a frame of 0 or less, frame + offset past the edge exits |
| Packer.FrameClampGoesNegative | Source/Tools/SequenceImagePacker/SequenceImagePacker.cpp:251-261 | a 10-pixel frame at offset 50 of a 40-pixel image is clamped to -10, a negative write size |
| Packer.FitAxis | Source/Tools/SequenceImagePacker/SequenceImagePacker.cpp:253-273 | with the corrected frame clamp (see Findings): for the first image and a non-negative request inside the image, the frame is kept when frame + offset fits and is image - offset otherwise; with a size recorded the image is accepted exactly when it matches, else the "inconsistent" exit; in general it accepts exactly what AxisAccepts allows, so an offset past the edge always exits |
| Packer.FitAxisDiffersOnlyPastEdge | Source/Tools/SequenceImagePacker/SequenceImagePacker.cpp:253-266 | the corrected and the as-written axis check differ exactly on a first image with a positive frame and an offset past the edge, where the corrected one exits and the as-written one accepts a negative frame |
| Packer.ScanFrom | Source/Tools/SequenceImagePacker/SequenceImagePacker.cpp:221-303 | with the corrected frame clamp (see Findings): a finished scan has counted exactly the frames of the range whose file exists and loads, and with none it changes nothing; it exits only through the size checks; a recorded size and component count stay; non-negative requests keep fitting with non-negative frames |
| Packer.ScanImage | Source/Tools/SequenceImagePacker/SequenceImagePacker.cpp:239-302 | with the corrected frame clamp (see Findings): an image is accepted exactly when both axes pass the size check, otherwise a size exit; it counts once; its size becomes the recorded size; the first image fixes the component count and depth |
| Packer.ScanSucceeds | Source/Tools/SequenceImagePacker/SequenceImagePacker.cpp:221-303 | when every frame that loads has one nonzero size that the request fits, the scan finishes, and with a frame loaded the component count is nonzero |
| Packer.ScanSizesAgree | Source/Tools/SequenceImagePacker/SequenceImagePacker.cpp:248-300 | after a successful scan every frame in range that loads with a nonzero size has the recorded size |
| Packer.CeilSqrt | Source/Tools/SequenceImagePacker/SequenceImagePacker.cpp:322 | the least s with n <= s*s |
| Packer.CeilDiv | Source/Tools/SequenceImagePacker/SequenceImagePacker.cpp:324 | the least q with q*b >= a |
| Packer.Candidate | Source/Tools/SequenceImagePacker/SequenceImagePacker.cpp:330-331 | candidate i has s-i rows, enough tiles for n, and fewer than a row of spare tiles |
| Packer.LayoutFrom | Source/Tools/SequenceImagePacker/SequenceImagePacker.cpp:328-338 | the search never increases the tile count, ends no worse than every candidate it visits, and on ties keeps the earlier one |
| Packer.Layout | Source/Tools/SequenceImagePacker/SequenceImagePacker.cpp:321-338 | the grid is the first candidate or one of the candidates the loop visits; its rows are at most the ceiling square root and, for two or more frames, above sqrt less min-rows and at least 2, so never a single row; rows*cols >= n with less than a row spare, and no candidate has fewer tiles |
| Packer.TileOf | Source/Tools/SequenceImagePacker/SequenceImagePacker.cpp:361-365 | frame f goes to the tile (r, c) with c < cols and f - seqStart == r*cols + c |
| Packer.TileFrameRoundTrip | Source/Tools/SequenceImagePacker/SequenceImagePacker.cpp:361-365 | tiles and frame indices correspond one to one |
| Packer.DivModUnique | Source/Tools/SequenceImagePacker/SequenceImagePacker.cpp:363-365 | the row and column of a tile are determined by its offset in the sequence |
| Packer.WriteSize | Source/Tools/SequenceImagePacker/SequenceImagePacker.cpp:346-349 | the write size is the read end less the offset |
| Packer.ReadWindowInsideImage | Source/Tools/SequenceImagePacker/SequenceImagePacker.cpp:346-349 | with the frame fitted to the image, the read window lies inside the image and the write size is non-negative |
| Packer.PixelTarget | Source/Tools/SequenceImagePacker/SequenceImagePacker.cpp:394-400 | a source pixel of the frame in tile (r, c) lands inside that tile's block |
| Packer.PixelTargetsDisjoint | Source/Tools/SequenceImagePacker/SequenceImagePacker.cpp:358-400 | distinct source pixels or tiles never land on the same packed pixel, and every pixel lands inside the packed image |
| Packer.OutputExt | Source/Tools/SequenceImagePacker/SequenceImagePacker.cpp:406 | -outx when given, the input extension otherwise |
| Packer.OutputNameIsNoFrame | Source/Tools/SequenceImagePacker/SequenceImagePacker.cpp:406-407 | the packed sheet never gets the file name of a frame as named at lines 225 and 369, whatever the format, index and extensions: after the shared folder and prefix its name continues with "SEQ" and a frame's name with a pad space, a sign or a digit |
| Packer.OutputDispatchInverted | Source/Tools/SequenceImagePacker/SequenceImagePacker.cpp:410-425 | as written, "jpg" is saved as PNG and every other extension as JPEG |
| Packer.OutputFormat | Source/Tools/SequenceImagePacker/SequenceImagePacker.cpp:410-425 | each format is chosen exactly when the extension equals its name ignoring case; any other extension is not saved |
| Packer.GridFor | Source/Tools/SequenceImagePacker/SequenceImagePacker.cpp:361-365 | every index of the range has a tile inside the grid |
| Packer.MissingFramesDropLastFrame | Source/Tools/SequenceImagePacker/SequenceImagePacker.cpp:321-365 | frames 0..10 with five present give a 3 by 2 grid in which frame 10 has no tile |
| Packer.Pack | Source/Tools/SequenceImagePacker/SequenceImagePacker.cpp:114-425 | with the corrected argument guard, frame clamp, grid and output dispatch (see Findings): too few arguments exit with help; once the options parse and validate the run is PackValidated in the folder FilePath gives; a plan has at least one frame and non-zero components, gives every frame of the range a tile, writes exactly the read window, and saves in the format the extension names |
| Packer.PackValidated | Source/Tools/SequenceImagePacker/SequenceImagePacker.cpp:221-425 | with the corrected frame clamp, grid and output dispatch (see Findings): the "didn't find any files to open" exit happens exactly when no frame of the range loads; a plan counts exactly the loadable frames, has non-zero components, gives every frame a tile, writes the read window and saves in the format the extension names |
| Packer.PlanFrom | Source/Tools/SequenceImagePacker/SequenceImagePacker.cpp:305-319 | after the scan, the "no files" exit happens exactly when nothing was found and a plan exactly when something was found with components; the plan carries the scan's count and components and a grid with a tile for every frame |
| Packer.PackSucceeds | Source/Tools/SequenceImagePacker/SequenceImagePacker.cpp:221-319 | a validated run with at least one loadable frame, all loadable frames of one nonzero size with components, and a request that fits that size produces a plan |
| Scenarios.FootstepSpawnsRipple | Source/Samples/69_MaterialEffects/Character.cpp:294-321 | a footstep in water reaching a subscribed handler with a Ripple template appends one Ripple at (foot.x, water.y, foot.z), elapsed 0, with an enabled billboard of the material's alpha |
| Scenarios.SplashLifetime | Source/Samples/69_MaterialEffects/SplashHandler.cpp:100-152 | with the corrected visual update (see Findings): a fresh splash survives ticks totalling at most its duration and is removed by the tick that passes it |
| Scenarios.FootstepSplashExpires | Source/Samples/69_MaterialEffects/SplashHandler.cpp:102-150 | the ripple a footstep spawns lives through a tick within its duration and is gone once the ticks exceed it |

## Left out

- The float vector physics of the character (Character.cpp:103-165) is not modelled: move impulse, normalisation, braking magnitude and jump impulse size. The tick reports which force scale applies, whether braking runs and whether the jump impulse is applied.
- The moving-platform branch (Character.cpp:129-147) is not modelled: `onMovingPlatform_` is only ever initialised to false.
- Character.FixedUpdate: `isJumping_` and `inWater_` are not initialised by the constructor. The initial state takes them as false.
- Character.FixedUpdate: the in-air threshold of 0.1 s is taken from the comment at Character.cpp:99. Character.h, which defines it, is not part of this model.
- Character.HandleNodeCollision: the water collision layer is a boolean on the other body. CollisionLayer.h, which gives its value, is not part of this model.
- Character.DecodeContacts: requires a buffer of whole eight-word records. The physics world only writes whole records, and a partial tail would be read from past the buffer.
- Character.HandleAnimationTrigger: the child lookup by name is an input, the foot node's world position, or none.
- Animation playback, node lookup, scene-node creation, materials, the resource cache and event delivery are engine services. They appear as inputs or as returned effect lists.
- Splash.Age: elapsed time is stated never to decrease only when the sum stays below 2^32. At 2^32 the unsigned counter wraps, as the model's `AddU32` shows.
- Splash.TickMs: requires `timeStep * 1000` to fit in 32 bits. A larger float-to-unsigned conversion is undefined in C++.
- Splash.SweepExpired: requires fewer than 2^32 live instances, the range of the unsigned index.
- Splash timers (`SplashData::timer`) are reset but never read, so they are not modelled.
- Sequencer.FixedUpdate: UV scrolling is stated over reals, not floats. `InitUVFrameSize` (UVSequencer.cpp:186-190) computes float reciprocals that nothing modelled reads, so it is omitted.
- Sequencer.UpdateUVFrame: requires a non-zero column count whenever a frame is shown, because the source divides by `cols_` there.
- Sequencer.UpdateSwapImage: requires a selected format whenever an image is shown, because the source passes `decFormat_` to sprintf, which before Reset is NULL.
- Sequencer.FixedUpdate: the index increments are not wrapped at 2^31. A 32-bit `int` overflow would need about 2^31 expiries.
- Sequencer.ShowImage: the 10-byte `sprintf` buffer is not modelled. Indices are taken to be short enough to fit.
- Sequencer.DelayedStart: the drawable and material lookup are not modelled. The model takes a drawable with a material as given.
- Sequencer.Expire: requires `timePerFrame + 1` below 2^32, so that a timer reading past the frame time exists.
- Text.ToInt: `strtol`'s clamp on overflow is not modelled.
- Text.ToInt: carries no contract of its own. Its behaviour is stated by the `ToIntOf…`, `ToIntStopsAtNonDigit`, `ToIntWithoutDigits` and `ToIntSkipsPadding` lemmas, because a postcondition on `ToInt` would be instantiated at every `ToInt` in the flag loop and make those proofs far more expensive.
- Packer.RemoveTrailingSlash: the engine's `RemoveTrailingSlash`/`AddTrailingSlash` also trim white space; the model does not.
- Packer.FitAxis: bounds are stated for non-negative -fw/-fh/-ox/-oy values only. Negative values are accepted by the source and not constrained further.
- Packer.CeilSqrt: the float `sqrt`/`ceil` are modelled as the exact integer ceiling, which they equal for the counts involved.
- Packer.MinRows: `(int)(sqrtNum / 1.5f)` is modelled as `(2 * sqrtNum) / 3`.
- Packer.Pack: models the corrected program, not the program as written, and so do `Packer.PackValidated` and `Packer.PlanFrom`. It uses the corrected argument guard (`MinArgs`), the corrected frame clamp (`FitAxis`), the corrected grid (`GridFor`) and the corrected output dispatch (`OutputFormat`). The as-written behaviour is exhibited only by the members named under "## Findings".
- Splash.FixedUpdate: models the corrected visual update (`UpdateVisualCorrected`), which fetches a billboard set only for Ripple instances. As written, a live Water instance makes the tick dereference a missing billboard set (see "## Findings").
- Scenarios.SplashLifetime: is proved for the corrected tick only. As written, a Ripple splash updates as the corrected tick does (`UpdateVisualCorrected`), but a Water splash faults on its first tick (`WaterSplashFaults`).
- Packer.ScanFrom: uses the corrected frame clamp (`FitAxis`), which exits where the source would clamp the frame to a negative width. `FitAxisDiffersOnlyPastEdge` states exactly where the two differ and `FrameClampGoesNegative` shows the as-written value.
- Packer.ScanImage: uses the corrected frame clamp (`FitAxis`) for the same reason as `Packer.ScanFrom`.
- Packer.Pack: pixel colours, image loading and saving, the BLACK fill, verbose printing and the success message are not modelled. The plan states the geometry and the chosen format.
- Packer.ParseFlags: a value flag given as the last argument reads past the end of the argument list in the source; the model exits with `MissingValue`.
- CharacterDemo.cpp (scene, camera, input, UI and vertex-buffer set-up) is not part of this model.
- Attribute registration and XML parsing (`RegisterObject`, `Serializable::LoadXML`) are not modelled. Loaded templates and list files are given as records.

## Findings

| source | as written | input that shows it | evidently intended | confidence | as-written member | corrected member |
|---|---|---|---|---|---|---|
| Source/Tools/SequenceImagePacker/SequenceImagePacker.cpp:410-425 | each branch tests `ext.Compare("JPG", false)` for truth, and Compare returns 0 for equal strings | `-outx png` (or `-sx png`) | save in the format whose name equals the extension ignoring case | high, not executed | Packer.OutputDispatchInverted | Packer.OutputFormat |
| Source/Samples/69_MaterialEffects/SplashHandler.cpp:111-114 | the billboard set of every live instance is fetched and dereferenced before the switch on its kind, but only Ripple instances get one | a registered Water template and an E_SPLASH event of type 1 | touch the billboard set only for Ripple, as the switch does | medium, not executed | Splash.WaterSplashFaults | Splash.UpdateVisualCorrected |
| Source/Tools/SequenceImagePacker/SequenceImagePacker.cpp:321-365 | the grid is sized by the number of frames found, but frames are placed by their index in the range | `-ss 0 -se 10` with only frames 0, 1, 2, 3 and 10 present | every present frame gets a tile: size the grid by the range length | medium, not executed | Packer.MissingFramesDropLastFrame | Packer.GridFor |
| Source/Tools/SequenceImagePacker/SequenceImagePacker.cpp:116-120 | the guard requires 2 + 4*2 arguments, counting the program name, but the list starts at the input path (line 146) | `frames -sx png -sf 3 -ss 0 -se 10` (9 arguments; -sp is optional) | accept the input path plus four flag pairs, nine arguments in all | medium, not executed | Packer.MinimalCommandRejectedAsWritten | Packer.MinimalCommandAccepted |
| Source/Tools/SequenceImagePacker/SequenceImagePacker.cpp:251-261 | when the frame width is given, it is clamped to `width - ox` without checking that `ox` is inside the image | `-fw 10 -ox 50` on 40-pixel-wide frames | exit with "ox > image width", as the branch without -fw does | medium, not executed | Packer.FrameClampGoesNegative | Packer.FitAxis |
