# okernel: a verified model of its hard parts

okernel is a from-scratch 32-bit kernel with a desktop, a media player and a web
browser. This project models, in Dafny, the parts of it whose correctness is hardest
to see from the code, and proves what the code is for. Each module follows one
component; imperative code stays imperative (classes with the source's fields, loops
with invariants, arrays updated in place) and is proved against a specification that
does not mention it.

* **The request filter** (`Ablock*.dfy`). A glob matcher with one-level backtracking,
  a token index, a label-by-label host set and a verdict that combines them. The
  specification is a linear scan of all live filters with a declarative glob relation.
  Main result: under checkable conditions on the list and the URL, the indexed verdict
  is the verdict of a linear scan with the code's own matcher, and with the glob relation
  too when no live end-anchored filter has a star; `Engine.Allows` computes it.
* **The compositor** (`Compositor*.dfy`). Back buffer, dirty spans, flush in
  interrupt-free chunks, a software cursor that lives only in the frame buffer and moves
  in interrupts. Main result: over every interleaving, a pixel that is neither dirty nor
  still to be presented shows the scene blended with the sprite where it is now.
* **The audio ring** (`AudioSlots.dfy`, `AudioTape.dfy`, `AudioRun.dfy`, `AudioRing.dfy`,
  `AudioFaults.dfy`). A state machine of card, timer tick, writer and flush, in which the
  position is read, used, and a chunk copied and published in separate steps; the driver's
  class refines it. Main result: over every run whose writer is never overtaken by a wipe
  and never restarts more than a lap past one, the card plays an endless tape, byte for
  byte by position; and a write arrives on it in order, whatever happens between its steps,
  if the ticks also spare its unpublished copies.
* **Rate correction** (`AudioRate.dfy`) and **clock smoothing** (`AudioClock.dfy`):
  resampling that does not depend on the chunking, a clock that goes back only at a
  restart, and by at most 960 frames.
* **Argument reduction** (`Trig*.dfy`). The exact multi-word product with 2/pi, its
  quotient and its normalised fraction.
* **64-bit division** (`Division.dfy`) on a 32-bit machine.
* **The I2C master** (`Dwi2c.dfy`, `DwPump.dfy`, `DwMaster.dfy`) against a controller whose
  registers answer anything: the driver's accesses are a function of the answers. Its
  receive FIFO (`DwFifo.dfy`) survives one false "not empty" and not two.
* **HID descriptors and reports** (`Hid*.dfy`), for every byte string: what the walker
  reports is a function of the descriptor's items alone, given element by element, and so
  is each pointer layout the parser keeps.
* **The ELF loader** (`Elf.dfy`, `ElfLoad.dfy`) with its 32-bit arithmetic.

`Bits.dfy` holds powers of two, bits and product lemmas that several modules share,
`Scalars.dfy` bytes, minimum and maximum.
Integers are unbounded; wrap-around, masks with power-of-two sizes and truncating casts
are written out where the source relies on them. Hash functions, the page allocator, the
card's progress, interrupts, register reads and video memory are parameters.

## Where the code does less than its comments say

* **End anchor after a star.** The matcher keeps only the leftmost alignment of each
  piece, so an end-anchored `a*b` misses a URL like `abXb`. `MatcherExactIff`: exact for every URL if and
  only if there is no end anchor or no `*`.
* **Quick reject.** The first-literal test starts the match at that literal, so an
  unanchored pattern with `^` before it is never found at the separator.
  `QuickRejectExactIff`: exact for every URL, end anchor or not, if and only if only stars
  precede the first literal.
* **Token guarantee.** "The URL must contain this run" is false for a run at an
  unanchored edge: `/banner` matches `/banners`. `TokenGuaranteeIff`: it holds if and only
  if the run occurs in the pattern fenced on both sides.
* **Ports.** The host walk compares names up to the end of the span, port included, so
  with a port it finds no name at all, while the pattern form finds those that end at the
  port (`PortHidesHosts`, for every URL with a port). `HostWalkExactIff`: walk and pattern
  agree on all names if and only if every name the span is cut into by separators also
  runs to the span's end.
* **The host set** keeps only the first record of a name, so a `$badfilter` that kills it
  hides a later live one (`BadfilterHidesHostsLine`, `DeadNameHidesLater`). A name whose
  hash is 0 is never stored (`ZeroHashIsMissed`) and one that collides blocks other hosts
  (`CollisionBlocks`).
* **Sixty-four runs.** A token behind the first 64 long runs of a URL is never looked up
  (`LateRunIsMissed`).
* **Silence after an underrun.** A chunk copied while the writer is behind what the tick
  has wiped is heard again a lap later (`OvertakenCopyIsHeardAgain`). `CopySilenceIff` is
  exact; a whole run stays silent unless such a copy happens (`RunIsSilent`).
* **A tick between copy and publication** wipes part of the copy if and only if the chunk
  reaches more than a lap past the last wipe (`SplitCopyIsWipedIff`, `SplitCopyIsWiped`).
  A write goes on arriving across the tick if and only if the wiped part of the copy is
  silence (`TickSparesCopyIff`).
* **A late restart.** When the queue has run dry nearly a lap after the last tick, the
  restarted writer may stand more than a lap past it; the next tick then spares played
  bytes, which sound again (`StrayingWriterReplays`). `JumpTunesIff` and `FlushTunesIff`:
  a restart is safe for every ring and tape if and only if it stays within a lap of the
  last wipe or moves the writer no further.
* **The I2C limit on reads in flight** leaves one place of the receive FIFO free, and each
  pop of an empty FIFO costs one place (`LiesCostPlaces`). `OneLieIsHarmless`: no transfer
  overflows a FIFO of any depth with `n` false "not empty" answers if and only if `n` is at
  most 1; `FalseStatusOverflows` drives the master into the overflow with two.
* **HID sizes.** Bit counters are 32-bit, read as an int, and report lengths are kept in
  16 bits. `OffsetIsSizeIff` and `LengthCoversFieldsIff` give the exact limits, and
  `ParseFarAxes` and `ParseLongReport` the descriptors beyond them.
* **ELF table bound.** The end of the program header table is computed modulo 2^32.
  `TableTestExactIff`: the test is exact for every file length if and only if it does not
  wrap. `WrappedTablePasses` gives the files that pass with their table outside them.

## Model

| member | source | states |
|---|---|---|
| AblockChars.FoldKeepsClasses | src/ablock.c:221-238 | case folding never moves a character between separators, token characters and host characters, so folded and raw scans cut a URL at the same places |
| AblockGlob.MatchAt | src/ablock.c:314-335 | the backtracking loop terminates for every pattern and URL; a hit is a leftmost alignment, and within the step budget every leftmost alignment is a hit |
| AblockGlob.LeftmostAgainstMatches | src/ablock.c:314-335 | a leftmost alignment is a match of the declarative glob relation, and with no end anchor or no star every match has one (the last star suffices) |
| AblockGlob.StarBeforeEndAnchorLosesMatches | src/ablock.c:314-335 | every end-anchored pattern with a star has a URL that it matches and the matcher misses |
| AblockGlob.MatcherExactIff | src/ablock.c:314-335 | the matcher agrees with the glob relation on all URLs if and only if the pattern has no end anchor or no star |
| AblockPattern.HostSpan | src/ablock.c:1142-1153 | the span found is the one after the first `://`, up to the first `/`, `?`, `#` or the end, and empty when there is none |
| AblockPattern.PatMatch | src/ablock.c:337-361 | dispatch on the anchor and the quick reject: a hit is an engine hit, and within the budget every engine hit is found |
| AblockPattern.EngineIsScan | src/ablock.c:337-361 | what the engine finds, the matcher finds at some start; both find the same when only stars precede the first literal |
| AblockPattern.ScanAgainstHits | src/ablock.c:337-361 | what the matcher finds at some start is a hit of the anchored glob, and the converse when an end anchor comes with no star |
| AblockPattern.EngineAgainstHits | src/ablock.c:337-361 | an engine hit is a hit of the anchored glob; the converse holds when only stars precede the first literal and an end anchor comes with no star |
| AblockPattern.SeparatorBeforeLiteralLosesMatches | src/ablock.c:351-357 | every unanchored pattern with `^` before its first literal has a URL it hits and the quick reject drops |
| AblockPattern.QuickRejectExactIff | src/ablock.c:351-360 | for every unanchored pattern, the quick reject loses nothing the matcher would find on any URL if and only if only stars precede the first literal; likewise against the glob relation when an end anchor comes with no star |
| AblockToken.PickToken | src/ablock.c:505-532 | the pick is the first longest eligible run (three characters or more, no star beside it, not a stop word), or there is none |
| AblockToken.BoundedRunIsInUrl | src/ablock.c:510-532 | a run fenced on both sides is a maximal token run of every URL the pattern hits |
| AblockToken.TokenGuaranteeIff | src/ablock.c:510-532 | every URL the pattern hits contains the run as a maximal run if and only if the run occurs fenced in the pattern |
| AblockToken.BannerMissesBanners | src/ablock.c:513-532 | `/banner` picks `banner` and hits `/banners`, which has no such run |
| AblockHostSet.CapacityStaysPower | src/ablock.c:273-287 | capacities start at and stay powers of two |
| AblockHostSet.FreeSlot | src/ablock.c:288-308 | a table that is not full has a free slot, so probing terminates |
| AblockHostSet.StopMeansAbsent | src/ablock.c:300-308 | a probe that meets a free slot first proves the key absent |
| AblockHostSet.InsertKeeps | src/ablock.c:288-296 | filling the first free slot of a probe sequence keeps every stored key reachable by its own |
| AblockHostSet.HostSet.Grow | src/ablock.c:273-287 | growth doubles the capacity and keeps the whole map |
| AblockHostSet.HostSet.Put | src/ablock.c:272-297 | first writer wins over nonzero keys; zero keys and known keys change nothing; load stays below 0.7 through growth |
| AblockHostSet.HostSet.Has | src/ablock.c:300-308 | the stored value, or -1 exactly for keys never put |
| AblockIndex.MarkDead | src/ablock.c:943-964 | a filter ends dead exactly when some badfilter record names it |
| AblockIndex.MembersAreExact | src/ablock.c:966-995 | a list holds exactly the filters whose key it is, in list order |
| AblockIndex.BuildIndex | src/ablock.c:966-995 | counting, prefix sums and filling leave monotone offsets and, per bucket and for the tokenless list, exactly its members in order |
| AblockVerdict.DomMatch | src/ablock.c:1126-1140 | no excluded domain covers the host, and an included one does if any is listed |
| AblockVerdict.EvalFilter | src/ablock.c:1179-1191 | non-zero exactly when the filter is live, its options admit the request and its pattern hits; exceptions answer allow |
| AblockVerdict.LongRunsAreAll | src/ablock.c:1245-1253 | the scan meets every maximal run of three characters or more |
| AblockTheorem.HostMapIsFirst | src/ablock.c:870-906 | the host set maps each nonzero name hash to the first record with it |
| AblockHosts.HostMatchAt | src/ablock.c:337-347 | matching `h^` at a place means reading `h` there and then a separator or the end |
| AblockHosts.PatternReadsCutNames | src/ablock.c:337-347 | the host-anchored pattern, `h` and then a separator, hits if and only if `h` is one of the names the span is cut into between labels and separators |
| AblockHosts.PlainHostIsSeen | src/ablock.c:1236-1243 | a span of host characters alone, no port and no user part, is cut only into names that run to its end |
| AblockHosts.HostWalkIsHostPattern | src/ablock.c:1236-1243 | when every such name runs to the span's end, the label walk finds `h` if and only if that pattern hits |
| AblockHosts.HostWalkExactIff | src/ablock.c:1236-1243 | walk and pattern agree on every host name if and only if every name the span is cut into runs to its end |
| AblockHosts.PortHidesHosts | src/ablock.c:1236-1243 | for every URL with a port the walk finds no host name, and the pattern finds exactly those that end at the port |
| AblockTheorem.IndexedVerdictIsMatcher | src/ablock.c:1195-1283 | under the conditions listed below the indexed verdict is that of a linear scan with the same matcher: important block over exception over block, untyped filters never on a top-level document; bucket collisions do not matter |
| AblockTheorem.MatcherVerdictIsLinear | src/ablock.c:1195-1283 | when no indexed end-anchored filter has a star, that scan is the linear scan with the declarative glob relation |
| AblockTheorem.IndexedVerdictIsLinear | src/ablock.c:1195-1283 | under both conditions the indexed verdict is the declarative linear verdict |
| AblockLimits.DeadNameHidesLater | src/ablock.c:1236-1243 | in every list where the first of two records of a name is dead, the indexed verdict lets through what the live one blocks |
| AblockLimits.BadfilterHidesHostsLine | src/ablock.c:868-964 | for every host name, a rule, the badfilter that names it and a hosts line for the same name make such a list |
| AblockLimits.ZeroHashIsMissed | src/ablock.c:272-297 | a host record whose name hashes to 0 is never found, though its pattern hits |
| AblockLimits.CollisionBlocks | src/ablock.c:1236-1243 | a host whose hash is that of a listed name is blocked, though no filter hits it |
| AblockLimits.LateRunIsMissed | src/ablock.c:1245-1267 | for every URL with 64 or more other long runs before the token, the filter that hits is not consulted |
| AblockEngine.Engine.constructor | src/ablock.c:870-995 | from a parsed list: dead marks, host set and index in the state the verdict needs |
| AblockEngine.Engine.WalkHosts | src/ablock.c:1236-1243 | true exactly when some label start of the span finds a live record |
| AblockEngine.Engine.ScanTokens | src/ablock.c:1245-1267 | either an important block was found among consulted filters, or all of the first 64 long runs were looked up and their filters tallied |
| AblockEngine.Engine.Allows | src/ablock.c:1195-1283 | the returned verdict is the indexed one, and the linear ones under the conditions of the two theorems; only indexed filters need be within the step budget |
| CompositorPixels.ShiftDivides | src/cursor.c:127-134 | the shift form divides by 255 with rounding to nearest, for every product of two bytes |
| CompositorPixels.BlendIsRounded | src/cursor.c:127-134 | the two-lane word arithmetic is a per-channel premultiplied blend, and no channel overflows into another |
| Compositor.Screen.constructor | src/graphics.c:440-449 | a fresh screen with buffers of its own, black under whatever video memory held, all of it dirty and in the clip; the invariant holds |
| Compositor.Screen.MarkSpan | src/graphics.c:42-47 | exactly row y grows to the union of its span and the new one |
| Compositor.Screen.MarkAll | src/graphics.c:48-51 | every pixel is dirty and the invariant holds whatever was drawn |
| Compositor.Screen.FbRestore | src/cursor.c:137-150 | exactly the on-screen part of the rectangle shows the scene again |
| Compositor.Screen.FbDraw | src/cursor.c:154-177 | exactly the sprite's non-transparent pixels in the rows show the blend |
| Compositor.Screen.MoveSprite | src/cursor.c:179-186 | a move leaves no residue: every pixel right before is right after, for the new place, and nothing outside both rectangles changes |
| Compositor.Screen.FbRepair | src/cursor.c:195-199 | the sprite is re-blended in the given rows and nowhere else |
| Compositor.Screen.EnableCursor | src/cursor.c:231-252 | switching the software cursor on keeps every right pixel right |
| Compositor.Screen.SetClip | src/graphics.c:459-468 | the clip is the rectangle's part of the screen, empty when they do not meet |
| Compositor.Screen.PutPixel | src/graphics.c:478-483 | draws one clipped pixel and keeps the invariant across interrupts inside it |
| Compositor.Screen.RectFill | src/graphics.c:490-500 | fills exactly the clipped rectangle and keeps the invariant |
| Compositor.Screen.HLine | src/graphics.c:529-536 | draws exactly the clipped span and keeps the invariant |
| Compositor.Screen.BlitPixels | src/graphics.c:898-910 | copies exactly the clipped part of the image and keeps the invariant |
| Compositor.Screen.BlitRect | src/graphics.c:912-938 | an overlapping move equals a simultaneous copy of the old pixels |
| Compositor.Screen.Fill | src/graphics.c:1033-1039 | the whole scene has the color and is dirty |
| Compositor.AddCovers | src/graphics.c:1092-1100 | past 64 runs the last rectangle grows and still covers everything |
| Compositor.Screen.CollectDamage | src/graphics.c:1081-1106 | at most 64 rectangles, all on screen, covering every dirty pixel; nothing stays dirty |
| Compositor.Screen.BeginFlush | src/graphics.c:1108-1116 | damage becomes pending work without losing a pixel |
| Compositor.Screen.PresentChunk | src/graphics.c:1053-1075 | one interrupt-free chunk makes its rows right, cursor included, keeps right pixels right and leaves the rest of the list |
| Compositor.Screen.Flush | src/graphics.c:1108-1142 | after a flush every pixel is right, and equals the scene outside the cursor |
| Compositor.Step | src/graphics.c:1050-1075 | every drawing call, flush step and cursor move keeps the invariant |
| Compositor.Run | src/graphics.c:1050-1075 | the invariant holds after every interleaving of them |
| Compositor.Session | src/graphics.c:1108-1142 | from power-on, after any such interleaving, finishing the flush and flushing once more leaves every pixel right |
| AudioSlots.LapCount | src/hda.c:441-443 | with less than a lap between reads, the wrap test recovers the true position |
| AudioSlots.WipeSparesQueue | src/hda.c:444-457 | the wipe changes no published byte, and no copied one within a lap of the last wipe |
| AudioSlots.WipeSilences | src/hda.c:444-458 | after the wipe every slot outside the queue is zero |
| AudioSlots.CopyAppends | src/hda.c:604-612 | a chunk copied within the ring appends to the queue and disturbs none of it |
| AudioSlots.CopySilenceIff | src/hda.c:604-612 | the copy keeps silence outside the queue if and only if no non-zero byte lands below what was wiped |
| AudioSlots.SplitCopyIsWipedIff | src/hda.c:444-457 | a tick between copy and publication wipes copied bytes if and only if wr_abs + chunk passes clean_abs + RING_BYTES |
| AudioTape.TickTunes | src/hda.c:444-458 | if the ring holds the tape, the tick keeps it so, taking off only positions past both the writer and the last wipe's lap |
| AudioTape.CopyTunes | src/hda.c:604-612 | a copy by a writer no wipe has passed lays its bytes on the tape and nothing else |
| AudioTape.SilenceTunes | src/hda.c:565-572 | a flush's memset takes its range off the tape where the card has not been |
| AudioTape.JumpTunesIff | src/hda.c:539-548 | the writer's restart ahead of the card keeps every ring holding every tape it held if and only if it ends within a lap of the last wipe or where it was |
| AudioTape.FlushTunesIff | src/hda.c:558-565 | and so does the flush's restart, for every position read before it |
| AudioRun.SoundKept | src/hda.c:428-614 | every step keeps the card within a lap of the last wipe and the writer GUARD bytes short of a lap ahead |
| AudioRun.SilentKept | src/hda.c:428-614 | and the silence past the writer, unless it is a copy by an overtaken writer |
| AudioRun.HoldsKept | src/hda.c:428-614 | and that the ring holds the tape, when no overtaken copy and no stray restart is the step; a tick takes off the tape exactly the unpublished bytes it wipes |
| AudioRun.StepPlaysTape | src/hda.c:428-614 | what the card plays in a step is the tape, which no step changes where the card has been |
| AudioRun.QueueStep | src/hda.c:428-614 | the queue is first in, first out: copies append, plays take from the front and then hear silence, publication and ticks leave it |
| AudioRun.RunIsSound | src/hda.c:428-614 | every state of every run is sound, and the card's position counts what it played |
| AudioRun.RunIsSilent | src/hda.c:428-614 | every run without an overtaken copy stays silent past the writer |
| AudioRun.RunPlaysTape | src/hda.c:428-614 | over every run without an overtaken copy or a stray restart, the position read, its use, copies and publications apart and ticks and plays anywhere between, the card plays the tape by position and silence where nothing was laid |
| AudioRun.RunKeepsTape | src/hda.c:428-614 | over such a run without a flush, whose ticks find copies published or within a lap of the last wipe, nothing once laid is lost or changed |
| AudioRun.RunWrites | src/hda.c:581-614 | over such a run a write interleaved with plays, ticks and position reads lays its bytes in order from where it started |
| AudioRun.TickSparesCopyIff | src/hda.c:444-457 | a write under way goes on arriving across a tick if and only if the copied and unpublished bytes past the writer and the last wipe's lap are zero |
| AudioRun.AllArrived | src/hda.c:581-614 | and all of them once nothing is pending |
| AudioRing.Ring.constructor | src/hda.c:307-326 | a fresh zeroed ring with every position at 0, silent and holding the empty tape |
| AudioRing.Ring.PlayedAbs | src/hda.c:489-497 | the lap arithmetic returns the card's true position |
| AudioRing.Ring.LookUp | src/hda.c:540-540 | refines the position read: the true position, which card and timer may leave behind before it is used |
| AudioRing.Ring.Consume | src/hda.c:407-407 | refines the play step: the bytes at the card's next positions |
| AudioRing.Ring.Tick | src/hda.c:428-458 | refines the tick step: position counted, exactly the played range wiped, above a lap behind the writer |
| AudioRing.Ring.QueuedBytes | src/hda.c:541-547 | the distance from the position read, however old, to the writer, which an underrun moves just ahead of that position |
| AudioRing.Ring.Space | src/hda.c:575-579 | as many frames as keep the writer within RING_BYTES - 64 of the position read, and no fewer |
| AudioRing.Ring.BeginWrite | src/hda.c:581-584 | refines the write's start: the longest prefix of whole frames that fits, from the writer or its restart, by the position read before |
| AudioRing.Ring.CopyChunk | src/hda.c:604-609 | refines the copy step: the chunk up to the ring's end is in its slots, nothing else changed, nothing published |
| AudioRing.Ring.Publish | src/hda.c:610-611 | refines the publication step |
| AudioRing.Ring.BeginFlush | src/hda.c:560-565 | refines the flush's start: the writer restarts ahead of the position read and the dropped range is remembered |
| AudioRing.Ring.SilenceChunk | src/hda.c:566-572 | refines the flush's memset: exactly the next stretch of the dropped range becomes zero |
| AudioRing.Ring.Drive | src/hda.c:428-614 | any sequence of operations is a run of the state machine, so the theorems above hold of the driver |
| AudioFaults.OvertakenCopyIsHeardAgain | src/hda.c:604-612 | a run from power-on in which a late byte is heard a lap later at a position nobody wrote |
| AudioFaults.SplitCopyIsWiped | src/hda.c:609-610 | a run from power-on in which a tick between copy and publication silences the chunk |
| AudioFaults.StrayingWriterReplays | src/hda.c:539-548 | a run from power-on in which a byte already played is played again |
| AudioRate.InterpolateBetween | src/audio_rate.c:92-102 | an interpolated sample lies between its neighbours and stays 16-bit |
| AudioRate.OutputIsSampled | src/audio_rate.c:92-102 | frame k is the stream read at start + k steps, and output ends only with the input |
| AudioRate.OutputOfTwo | src/audio_rate.c:90-107 | two calls give the frames and the leftover of one call on the concatenation |
| AudioRate.ChunkingDoesNotMatter | src/audio_rate.c:81-109 | any chunking of a stream gives the frames and history of one call |
| AudioRate.FitNeverOverfills | src/audio_rate.c:75-79 | input sized by arate_fit never produces more than the space, across any chunks |
| AudioRate.PieceFitsBuffer | src/hda.c:586-590 | at every plausible factor 800 frames in make at most 2048 out, so no piece is cut short |
| AudioRate.WriteStretched | src/hda.c:585-603 | the piecewise loop produces the frames of one call on the whole write, within the space it was sized for |
| AudioRate.InverseIsPlausible | src/audio_rate.c:10-13 | the inverse of a factor between half and twice nominal is one too |
| AudioRate.NoJump | src/audio_rate.c:40-66 | changing the factor never moves the nominal position |
| AudioRate.ClockNeverRunsBack | src/audio_rate.c:40-66 | over any run of updates the nominal position never decreases |
| AudioRate.Rate.Update | src/audio_rate.c:40-61 | the factor changes if and only if two agreeing plausible windows average to one worth setting, to that average or to nominal near it |
| AudioRate.Rate.Resample | src/audio_rate.c:81-109 | the frames of the stream function, cut at the capacity; an exact card is copied through |
| AudioClock.Clock.Smooth | src/audio_rate.c:113-129 | between restarts the larger of the last answer and the estimate cut at 960 frames past the card; never back at an upward restart, and by at most 960 at any other |
| AudioClock.Run | src/audio_rate.c:113-129 | over a whole run: the exact answer of each call; every answer within 960 past the card and never more than 960 below an earlier one, and never below an earlier one at all unless a call between finds the estimate more than 4800 past the card |
| TrigWindow.NextWord | src/kmath.c:353-357 | the straddling read returns the table's next 32 bits at every bit position |
| TrigWindow.WindowIsNextBits | src/kmath.c:372-374 | the eight words are the table's 256 bits from the start position |
| TrigWindow.WholeTable | src/kmath.c:339-349 | the table is its first bits, shifted, plus a remainder below one unit of them |
| TrigLimbs.AddProduct | src/kmath.c:378-391 | one round of the limb loop adds the word times m at its limb; no carry is lost |
| TrigLimbs.MulWindow | src/kmath.c:375-391 | the ten limbs hold exactly m times the window |
| TrigLimbs.PBitIsBit | src/kmath.c:394-395 | bit reads of the limbs are bits of the product, at every index |
| TrigReduce.QuotientBits | src/kmath.c:395-398 | two units bits and the first fraction bit give the nearest integer modulo 4, and the side it lies on |
| TrigReduce.FindTop | src/kmath.c:399-402 | the bit found is the leading one of the distance to that integer |
| TrigReduce.TakeFraction | src/kmath.c:403-405 | the 64 bits from there are normalised |
| TrigReduce.FractionIsClose | src/kmath.c:403-405 | they are within one unit of their last bit of the true distance |
| TrigReduce.Reduce | src/kmath.c:366-411 | for every finite double: quotient, side and normalised fraction of the windowed product |
| TrigReduce.WindowInsideTable | src/kmath.c:372-374 | no finite exponent makes the window leave the table |
| TrigReduce.SkippedBitsAreMultiplesOfFour | src/kmath.c:359-374 | the bits before the window contribute a multiple of four, those after it less than 2^53 of the last place |
| TrigReduce.QuotientIsNearest | src/kmath.c:359-398 | the quotient, plus a multiple of four, is nearest to m times the whole table up to that tail |
| TrigReduce.SignedQuotient | src/kmath.c:413-420 | for a negative argument the quotient is negated modulo 4 |
| Division.Clz64 | src/divdi3.c:17-26 | the leading-zero count of every non-zero word |
| Division.Aligned | src/divdi3.c:39-41 | shifting the divisor to the dividend's leading bit loses no bit and brings it within a factor of two |
| Division.DivByWord | src/divdi3.c:30-37 | the two 64/32 divisions give the exact quotient and remainder |
| Division.DivByLong | src/divdi3.c:39-47 | restoring shift-subtract gives the exact quotient and remainder |
| Division.UDivMod | src/divdi3.c:28-48 | n = q*d + r with r < d for every non-zero divisor, and zeros for zero |
| Division.DivMod64 | src/divdi3.c:59-67 | truncation toward zero with the dividend's sign on the remainder, except the most negative value by -1, which wraps |
| Division.TruncationIsUnique | src/divdi3.c:59-67 | that specification has one answer |
| Dwi2c.SequenceShape | src/dwi2c.c:99-111 | of the commands sent: data bytes, then reads; RESTART only on the first read after a write, STOP only on the last command |
| DwPump.TransferIsDisciplined | src/dwi2c.c:85-125 | for every answer of the registers, the loop's accesses send a prefix of the commands, pop only after a status read that said so, and keep reads in flight within the limit |
| DwPump.TransactedIsFine | src/dwi2c.c:72-141 | and so do the accesses of a whole transfer, of which the loop's are a prefix |
| DwFifo.LevelIsBalance | src/dwi2c.c:115-119 | whatever the controller does, the FIFO holds what came less what was popped plus the pops that found it empty |
| DwFifo.HeldIsBounded | src/dwi2c.c:85-86 | it never holds more than the limit on reads in flight plus the empty pops so far |
| DwFifo.EmptyPopsAreLies | src/dwi2c.c:115-119 | each empty pop follows a status read that falsely said "not empty" |
| DwFifo.LiesCostPlaces | src/dwi2c.c:85-119 | so it stays within its depth less one, plus one for each empty pop, and there are no more of those than false answers |
| DwFifo.FifoNeverOverflows | src/dwi2c.c:85-86 | however a transfer ends, with at most one false "not empty" the FIFO never holds more than its depth, and with none never more than its depth less one |
| DwFifo.TwoLiesOverflow | src/dwi2c.c:85-119 | at every depth, two false answers at the start of a read let what the driver then does overflow the FIFO |
| DwFifo.OneLieIsHarmless | src/dwi2c.c:85-119 | at every depth and over every transfer, register answers and FIFO, `n` false answers never overflow it if and only if `n` is at most 1; likewise for empty pops |
| DwFifo.FalseStatusOverflows | src/dwi2c.c:49-141 | for every receive depth the controller can report, a set-up master whose transfer performs exactly those accesses |
| DwMaster.Master.Setup | src/dwi2c.c:49-66 | the accesses, both depths from the parameter register and the programmed registers as the answers determine them, the receive depth between 2 and 256; or -1 with no field changed |
| DwMaster.Master.Feed | src/dwi2c.c:99-114 | the loop performs exactly the sends the answers allow: the next commands in order, each after a status read with room, reads in flight within the limit |
| DwMaster.Master.Fetch | src/dwi2c.c:115-119 | the loop performs exactly the pops the answers allow, stores the bytes in order and nothing past rl |
| DwMaster.Master.Pump | src/dwi2c.c:85-125 | terminates for every answer of the registers with the code, accesses, bytes and abort source the answers determine |
| DwMaster.Master.Xfer | src/dwi2c.c:72-141 | for every controller: the accesses the answers determine, with reads in flight never past the limit; on success exactly the transfer's commands went out and the buffer holds the popped bytes; -2 only with the abort's source recorded; -3 exactly for an empty or negative request |
| HidBits.NumberBit | src/hid.c:192-195 | bit p of the report is bit p of its little-endian number |
| HidBits.Get | src/hid.c:189-198 | the field as a number, sign-extended when asked or when 32 bits wide, and 0 exactly outside the report |
| HidBits.ModeReport | src/hid.c:333-345 | the report's number is the mode shifted to its field and nothing else; 0 and no change when it cannot be built |
| HidBits.ModeReadsBack | src/hid.c:333-345 | reading the field back gives 3 if and only if it has two bits or more and is not a signed two-bit field |
| HidItems.ReadItem | src/hid.c:57-72 | the item at an offset, for every byte string, without reading past its end |
| HidEncode.ItemsReadBack | src/hid.c:57-72 | every list of short items reads back from its bytes, wherever they stand |
| HidEvents.LocalsSinceMain | src/hid.c:85-90 | the local state at any point is that of the local items since the last main item: the first usages in order, the last bounds, the page only from four-byte data |
| HidEvents.IdsAreDistinct | src/hid.c:33-38 | the ids with a counter are distinct and at most as many as the table holds |
| HidWalk.RidFind | src/hid.c:33-38 | the entry of the id, appended while there is room |
| HidWalk.Elements | src/hid.c:103-121 | for every count, size and starting offset, the loop reports exactly the elements the specification lists and adds count times size bits modulo 2^32 |
| HidWalk.PlaceIsExact | src/hid.c:105-121 | element e stands e sizes behind everything laid out before its item, when that is below 2^31 |
| HidWalk.EveryElementIsReported | src/hid.c:100-121 | every element of every input or feature item that the specification names is among the events |
| HidWalk.EveryReportIsElement | src/hid.c:100-121 | and every event is such an element of some item |
| HidWalk.Walker.FieldItem | src/hid.c:100-122 | an item reports exactly its elements and adds its bits to its report, if the report has or gets a counter |
| HidWalk.EventsPacked | src/hid.c:105-121 | the fields of a report below 2^31 bits lie in order in disjoint ranges inside it |
| HidWalk.OffsetIsSizeIff | src/hid.c:106-107 | the counter read as an int is the size if and only if the size is below 2^31 |
| HidWalk.Walker.Walk | src/hid.c:46-127 | for every byte string the walk ends, and its events, both counter tables and the id flag are exactly those its items define, without any bound on sizes or counts |
| HidPointer.ReportedInside | src/hid.c:40-43 | a field taken from an event keeps its place inside the report |
| HidPointer.LengthCoversFieldsIff | src/hid.c:179-181 | the 16-bit length covers every reportable field if and only if it did not wrap, or wrapped to more than the last of them |
| HidLimits.NegativeOffsets | src/hid.c:106-107 | for every pad of 2^31 bits or more before the axes, the offsets the parser keeps |
| HidLimits.WrappedLength | src/hid.c:179-181 | for every pad behind the axes, the length the parser keeps, and that it covers the axes if and only if it is two or more |
| HidLimits.ParseFarAxes | src/hid.c:106-107 | the parser, given the bytes of such a descriptor, keeps those offsets: behind 2^31 bits the axes are read at bits 0 and 8 |
| HidLimits.ParseLongReport | src/hid.c:179-181 | the parser, given the bytes of a descriptor of such a report, keeps that length: 0 for 2^19 bits |
| HidParse.CollectedProper | src/hid.c:136-164 | one layout per report id, each field one the walker reported for that id |
| HidFields.CollectedIsExpected | src/hid.c:136-164 | after any events the collected layouts are those of the first reports met inside a pointer, in order, each field the first event of its usage |
| HidParse.KeptFrom | src/hid.c:175-184 | the kept layouts are collected ones with both axes, with the length of all their input items |
| HidParse.Compact | src/hid.c:175-184 | the in-place pass leaves exactly those, in order |
| HidFields.LayoutsIff | src/hid.c:166-187 | a layout is kept if and only if it is the one of a report among the first `max` with a field inside a pointer, X and Y among its fields, with the length of its input items |
| HidParse.LayoutsAreDecodable | src/hid.c:166-187 | every layout the items define has both axes and, when its counter and length are in range, all its fields inside a report of that length |
| HidParse.ParsePointer | src/hid.c:166-187 | for every descriptor the array holds exactly the layouts its items define, in order, and nothing behind the limit changes |
| HidDecode.ScaleIsAScale | src/hid.c:204-210 | halving and scaling is monotone, 0 at the bottom, 65535 at the top |
| HidDecode.AbsoluteAxis | src/hid.c:200-211 | an absolute axis runs from 0 at the logical minimum to 65535 at the maximum, in order |
| HidDecode.Decode | src/hid.c:213-229 | accepted exactly for reports of the layout; axes, wheel and each button bit are their fields' values |
| HidDecode.FullReportReadsFields | src/hid.c:213-229 | decoding a full-length report of a parsed layout whose counter and length are in range never takes hid_get's out-of-range exit |
| Elf.SegmentCodeIsFit | src/elf.c:25-33 | the wrap tests are exact: a loadable segment passes if and only if it fits user memory, the file and its memory size, sums taken without wrap |
| Elf.TableTestExactIff | src/elf.c:18-19 | the table test is exact for every file length if and only if the table's end does not wrap |
| Elf.WrappedTablePasses | src/elf.c:18-24 | every file that starts with a certain header passes the header checks with its table outside it, and the verdict depends on memory beyond the file |
| Elf.TableInFile | src/elf.c:18-24 | without wrap, every table read stays in the file |
| Elf.Validate | src/elf.c:6-35 | 0 exactly for accepted images, else the code of the first failing check |
| Elf.ContentIsLastCover | src/elf.c:73-83 | the specified byte is that of the last segment whose file part covers the address |
| Elf.UncoveredIsZero | src/elf.c:64-67 | and zero where none does |
| ElfLoad.Loader.AddPage | src/elf.c:59-72 | maps one fresh zeroed page, or reports a full table or an empty allocator |
| ElfLoad.Loader.CopySlice | src/elf.c:73-83 | exactly the page's covered bytes become file bytes |
| ElfLoad.Loader.LoadSegment | src/elf.c:48-85 | one more segment's pages are mapped and filled, shared pages once |
| ElfLoad.Loader.Load | src/elf.c:37-88 | 0 exactly when the image is accepted and its needed pages number at most 32 and all were allocated; then each is mapped once and every byte is the specified one; other frames are untouched |

## Left out

- Cosmetic filters, scriptlets, redirects, option and selector parsing of the request filter: they need the unseen DOM and CSS engine or are string plumbing.
- Third-party computation and the page host of a request are inputs; loading phases, draining and the copy of the URL into a bounded buffer are not modelled.
- AblockGlob.MatchAt: completeness is stated within the step budget, because beyond it the source gives up by design.
- AblockTheorem.IndexedVerdictIsMatcher: asks that live records hold the fields the parser computes and host records are no badfilters, as the parser makes them (src/ablock.c:868-921), and that indexed filters are within the step budget; that each indexed filter's token occurs fenced (`TokenGuaranteeIff`), and only stars precede the first literal of an unanchored one (`QuickRejectExactIff`); that no live host name's hash is 0 (`ZeroHashIsMissed`) or collides (`CollisionBlocks`), and of records with one name the first is dead only if all are (`DeadNameHidesLater`); that the span is the URL's and every name it is cut into runs to its end (`HostWalkExactIff`); and at most 64 long runs (`LateRunIsMissed`).
- AblockTheorem.IndexedVerdictIsLinear: asks in addition that no indexed end-anchored filter has a star (`EndsExactly`); without it the matcher itself loses matches.
- Concrete hash functions: any function is allowed, and injectivity is asked for only where host names are concerned.
- The hardware cursor, GPU backends, fonts, glyphs, wallpaper and sprite rasterising.
- Compositor.Screen.PresentChunk: frame buffer pitch and linear addressing are abstracted to a two-dimensional array.
- AudioRing.Ring.Space: the ring is modelled for an exact card; the resampled write path is tied to it by AudioRate.WriteStretched.
- AudioRun.RunPlaysTape: asks of each copy that no wipe has passed the writer and of each restart that it stays within a lap of the last wipe; AudioFaults has a run for each that fails without it, and CopySilenceIff and JumpTunesIff the exact conditions. Bytes within one memcpy or memset are one step.
- AudioRun.RunWrites: asks in addition that copies come before the card reaches their place and that a tick finds copies published or within a lap of the last wipe; TickSparesCopyIff is exact for the second.
- HDA codec discovery, AC'97 registers, volume and position tracing; arate_force and its forced mode.
- TrigReduce.Reduce: ends at the integer fraction; scaling by pi/2 in extended precision, the small-argument shortcut and the table's agreement with the number 2/pi are not modelled.
- Division: the `divl` instruction is modelled by its arithmetic, and the thin wrappers that drop one result are not repeated.
- DwFifo.FifoNeverOverflows: the FIFO starts empty, as the drain before a transfer leaves it when its 256 pops suffice; bytes arrive only for reads already sent.
- DwMaster.Master.Xfer: delays are not modelled, and the controller is any sequence of register values, so that a byte popped is the byte the device sent is outside it.
- dw_present, the touchpad layout parser and touch decoding, beyond the mode report.
- HidParse.ParsePointer: callbacks are replayed from the walker's event log after the walk; they share no state with it.
- ElfLoad.Loader.Load: the two 32-entry side tables are sequences with the same limit, physical memory is indexed by frame, and null-pointer arguments are not modelled.
- Overflow of C ints in coordinates, byte counts and frame counts that the callers keep small.
