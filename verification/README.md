# Embedded Linux BSP examples: models and proofs

The repository is a notebook with small programs. This project models the ones that hold a protocol, a
loop over memory, an ownership discipline or a race, and proves what they are for. Every statement is
proved for all inputs, all interleavings or all answers of the environment; nothing was executed.

| file | models |
|---|---|
| `Words.dfy` | machine integers, `Option` |
| `Bits.dfy` | the bits of a number; C's bitwise operators, bit by bit |
| `FillColor.dfy` | pixel memory with row padding, `fill_color` byte by byte, the 32-bit row offset |
| `Slideshow.dfy` | what the page-flip program should show, and what its two buffers make the screen show |
| `PageFlip.dfy` | the double-buffered page flip: application steps with vblanks between any two pixel stores |
| `DumbBuffers.dfy` | creation and cleanup of buffers, for every point of failure, in both DRM programs |
| `PageFlipProgram.dfy` | the page-flip program from the first ioctl to the last |
| `HashChain.dfy` | the measured-boot hash chain over an arbitrary hash function |
| `HashChainProgram.dfy` | the hash-chain program: everything it prints, and what a reader of it can rely on |
| `XtOptions.dfy` | ConnMan's patched option table together with the libxtables merge |
| `EosRace.dfy` | the GStreamer end-of-stream race, before and after the patch |
| `PlaneSearch.dfy` | the search loops of the atomic example over a driver that may answer NULL to any call |
| `AtomicRequest.dfy` | the atomic request built from name lookups |
| `AtomicProgram.dfy` | the atomic program from the first query to the last release |
| `LockedCounter.dfy` | counters behind a mutex, any number of threads |
| `CounterText.dfy` | the text interface of the counter device |
| `Completion.dfy` | the completion driver, any number of readers and writers |
| `Epaper.dfy` | e-paper frame addressing, packed images, the bytes sent to the panel |

How the outside world enters: a call that may fail or vary is a nondeterministic choice (`*`) or a
parameter that ranges over all answers; where a call may fail, its failures are counted, so that success is
equivalent to no call having failed; vblanks, wakeups and thread switches are nondeterministic steps;
the hash function is a parameter about which nothing is assumed. Objects the C code updates in place are
classes and arrays; protocols between threads are state machines, and a run is any sequence of their steps.

## Where the code does less than it promises

Each of these is a theorem with the exact condition, or with a concrete run.

- `fill_color` computes `y * pitch` in 32 bits. It reaches every visible byte if and only if
  `(height - 1) * pitch < 2^32` (`FillCoversIffNoWrap`). Padded rows suffice to break that: on a frame of
  16385 by 65531 pixels, less than 2^32 bytes, with 65792 bytes a row the bottom right pixel is out of reach
  (`WrapLeavesPixel`). Over four frames or more the page-flip program shows complete frames if and only if
  neither buffer wraps (`SlidesIffNoWrap`, `RunProgram`).
- The ConnMan patch keeps libxtables from freeing the static table only from the first reset on. Under
  the unconditional policy of iptables 1.8.11 the process aborts if and only if the first operation is a
  merge (`XtParams.Run`). The case study is not of one mind about which operation that is: the cycles of
  its section E begin with a reset, but its line 97 has `reset_xtables` run after each operation, which
  makes a merge the first one.
- The GStreamer patch compares `output_flow` twice and then reads it again. A frame that is interrupted,
  by an external flush or by the loop on its way out or by both, returns a reason such as EOS if and only if
  the loop has left with that reason and nothing has reset it when the frame returns. If it saw the task
  running it returns OK if and only if OK was written last after the first comparison, and FLUSHING in all
  other cases, as it always does without the patch (`InterruptedFrameResult`). Both exceptions occur
  (`PatchedFlushMayReturnOk`, `PatchedFlushMayReturnReason`), but only if `output_flow` is set to OK between
  the comparisons or the loop leaves for a reason other than FLUSHING (`FlushReturnsFlushing`); a loop that
  the flush makes leave with FLUSHING changes nothing (`FlushedLoopReturnsFlushing`).
- The atomic example jumps past `destroy_dumb_buffer` when buffer creation fails, so objects are not
  explicitly released before the device is closed, unless the creation failed at its first step (`RunAtomic`).
- `hdisplay << 16` is an `int` shift: the value handed to the request is the 16.16 number if and only if
  the size is below 32768 (`ShiftIsFixedPointIff`, `SourceIsTargetIff`).
- A write to the completion device gets a delay of its own if and only if it finds the work function not
  running and the work not pending, or pending since that very moment (`WriteGetsItsDelayIff`); otherwise a
  read may follow it sooner, for example after one millisecond (`PendingWorkCutsDelay`).
- The hash-chain program prints each path before it opens the file. A failing run therefore prints a line
  that looks like a final digest if and only if one of the paths up to the failing one has such a line behind
  a newline (`FailureReportsIffForged`, `ReportMeansSuccess`).
- `find_connector_crtc` gives up on the first usable connector if its encoder cannot be read, even when a
  later connector would do (`FindConnectorCrtc`).

## Model

| member | source | states |
|---|---|---|
| `FillColor.FillPaintsFrame` | code/examples/drm/drm_vblank_pageflip_flow/userspace/page_flip_minimal.c:112-123 | without a wrap every visible pixel has the colour, and row padding and all bytes behind the frame are unchanged |
| `FillColor.FilledByte` | code/examples/drm/drm_vblank_pageflip_flow/userspace/page_flip_minimal.c:117-121 | byte c of row y takes byte c mod 4 of the colour, whatever rows were filled after it |
| `FillColor.UniformPixel` | code/examples/drm/drm_vblank_pageflip_flow/userspace/page_flip_minimal.c:118-121 | on a uniform frame the four bytes at y * pitch + 4 * x are those of the colour |
| `FillColor.PaddingKept` | code/examples/drm/drm_vblank_pageflip_flow/userspace/page_flip_minimal.c:117-121 | a byte in no visible row keeps its value |
| `FillColor.FillCoversIffNoWrap` | code/examples/drm/drm_vblank_pageflip_flow/userspace/page_flip_minimal.c:118 | the stores reach every visible byte if and only if the last row offset fits in 32 bits |
| `FillColor.UnstoredKept` | code/examples/drm/drm_vblank_pageflip_flow/userspace/page_flip_minimal.c:117-122 | with or without a wrap, a byte that is no store's target keeps its value |
| `FillColor.WrapLeavesPixel` | code/examples/drm/drm_vblank_pageflip_flow/userspace/page_flip_minimal.c:118 | with 16-bit width and height and fewer than 2^30 pixels, a concrete geometry that wraps through its row padding and leaves the bottom right pixel unpainted |
| `Slideshow.SlidesAreTheFrames` | code/examples/drm/drm_vblank_pageflip_flow/userspace/page_flip_minimal.c:243-293 | on a mode with pixels the expected pictures are exactly the uniform frames in colours 0, 1, 2, 3, 0, ... |
| `Slideshow.SlidePixels` | code/examples/drm/drm_vblank_pageflip_flow/userspace/page_flip_minimal.c:243-248 | the bytes of every pixel of every slide: red, green, blue, white and again |
| `Slideshow.PicturesAreSlides` | code/examples/drm/drm_vblank_pageflip_flow/userspace/page_flip_minimal.c:268-311 | if no row offset wraps, the pictures the alternating fills leave in the two buffers are the slides |
| `Slideshow.SlidesIffNoWrap` | code/examples/drm/drm_vblank_pageflip_flow/userspace/page_flip_minimal.c:112-123 | over four frames or more, whatever the buffers held before, the screen shows the slides if and only if no row offset of either buffer exceeds 32 bits |
| `PageFlip.Display.Vblank` | code/examples/drm/drm_vblank_pageflip_flow/userspace/page_flip_minimal.c:300-304 | a vblank latches the queued flip and posts one event, or changes nothing |
| `PageFlip.Display.Pass` | code/examples/drm/drm_vblank_pageflip_flow/userspace/page_flip_minimal.c:289-311 | over any number of vblanks at most one flip, the queued one, is latched |
| `PageFlip.Display.Store` | code/examples/drm/drm_vblank_pageflip_flow/userspace/page_flip_minimal.c:121 | one pixel store followed by any number of vblanks; drawing off screen changes nothing on screen |
| `PageFlip.Display.FillColor` | code/examples/drm/drm_vblank_pageflip_flow/userspace/page_flip_minimal.c:112-123 | the loops perform exactly the stores of the fill, in bounds, and the screen shows no trace of them |
| `PageFlip.Display.SetCrtc` | code/examples/drm/drm_vblank_pageflip_flow/userspace/page_flip_minimal.c:276-285 | success puts the buffer on the screen, failure leaves it dark |
| `PageFlip.Display.RequestFlip` | code/examples/drm/drm_vblank_pageflip_flow/userspace/page_flip_minimal.c:300-307 | at most one flip is queued; a refusal changes nothing |
| `PageFlip.Display.Select` | code/examples/drm/drm_vblank_pageflip_flow/userspace/page_flip_minimal.c:219-226 | every way `select` can return while time passes; one that is not a failure and costs no stall finds the flip latched |
| `PageFlip.App.PageFlipHandler` | code/examples/drm/drm_vblank_pageflip_flow/userspace/page_flip_minimal.c:186-203 | clears the flag and swaps front and back |
| `PageFlip.App.HandleEvent` | code/examples/drm/drm_vblank_pageflip_flow/userspace/page_flip_minimal.c:228-234 | reading the waiting events swaps once if the flip event is among them, and not at all otherwise; a failed read changes nothing |
| `PageFlip.App.Wake` | code/examples/drm/drm_vblank_pageflip_flow/userspace/page_flip_minimal.c:212-235 | one wakeup of the wait loop; it fails exactly if `select`, other than by EINTR, or `drmHandleEvent` fails |
| `PageFlip.App.WaitPageFlipEvent` | code/examples/drm/drm_vblank_pageflip_flow/userspace/page_flip_minimal.c:205-238 | the wait ends for any bound on idle wakeups; it fails exactly if one of its calls fails, however often it is interrupted; success means exactly one swap, the new front on screen and nothing queued, failure no swap and the flip still in flight |
| `PageFlip.App.ShowFrame` | code/examples/drm/drm_vblank_pageflip_flow/userspace/page_flip_minimal.c:289-311 | a frame changes the back buffer only and adds exactly its picture to what the screen showed, or nothing; after a refused request the flag is set although no flip is in flight |
| `PageFlip.App.RunFrames` | code/examples/drm/drm_vblank_pageflip_flow/userspace/page_flip_minimal.c:268-311 | for any number of frames and any vblanks between single stores, the run succeeds with all frames exactly if none of its calls fails; the screen shows exactly the pictures of the frames drawn so far, in order, a prefix of them if the run fails; a flip still queued then is to the next one; without a wrap they are the complete frames |
| `DumbBuffers.CreateDumbBuffer` | code/examples/drm/drm_vblank_pageflip_flow/userspace/page_flip_minimal.c:50-91 | the structure records exactly what was acquired, at every point of failure, and creation fails exactly if a call fails; a success acquired handle, framebuffer and mapping in this order |
| `DumbBuffers.DestroyDumbBuffer` | code/examples/drm/drm_vblank_pageflip_flow/userspace/page_flip_minimal.c:93-110 | the structure gives back what it owns as `Releases` lists it, whose order `TakeDownOrder` states, and is zeroed |
| `DumbBuffers.ReleaseParts` | code/examples/drm/drm_atomic_commit_flow/userspace/atomic_modeset_minimal.c:143-157 | the three guarded releases of both programs release what the structure owns, as `Releases` lists it |
| `DumbBuffers.TakeDownOrder` | code/examples/drm/drm_vblank_pageflip_flow/userspace/page_flip_minimal.c:100-107 | whatever a structure owns is released mapping first, then framebuffer, then handle; a complete buffer as exactly these three |
| `DumbBuffers.ReleasesInTurn` | code/examples/drm/drm_vblank_pageflip_flow/userspace/page_flip_minimal.c:315-317 | over any list of structures the releases are those of one structure after the other, each in that order |
| `DumbBuffers.ReleasesAreAcquisitions` | code/examples/drm/drm_vblank_pageflip_flow/userspace/page_flip_minimal.c:93-110 | over any list of buffers the releases are the acquisitions, with multiplicity |
| `DumbBuffers.CreateAll` | code/examples/drm/drm_vblank_pageflip_flow/userspace/page_flip_minimal.c:260-266 | for N buffers and a failure anywhere, the structures own exactly what is live, no resource twice; it stops exactly if a call fails |
| `DumbBuffers.DestroyAll` | code/examples/drm/drm_vblank_pageflip_flow/userspace/page_flip_minimal.c:315-317 | releases everything owned in order; a second pass does nothing |
| `DumbBuffers.CleanUp` | code/examples/drm/drm_vblank_pageflip_flow/userspace/page_flip_minimal.c:315-320 | nothing stays live, every acquisition was released exactly once, and the buffers were taken down one after the other, each in order |
| `PageFlipProgram.RunProgram` | code/examples/drm/drm_vblank_pageflip_flow/userspace/page_flip_minimal.c:240-322 | the program succeeds exactly if no call fails; on every path the screen has shown a prefix of the pictures, the vblanks after a failed wait included, complete frames if no row offset wraps and, over four frames or more, only then; nothing stays acquired, and the buffers were taken down one after the other, each unmapped, its framebuffer removed, its handle destroyed |
| `HashChain.ChainContinues` | code/examples/security/hash_chain_minimal/hash_chain_minimal.c:157-173 | measuring A then B equals continuing with B from the digest of A |
| `HashChain.ChainExtends` | code/examples/security/hash_chain_minimal/hash_chain_minimal.c:141-173 | the chain starts with 32 zero bytes, and each image makes it the hash of the chain followed by the image's hash |
| `HashChain.EqualDigestsExplained` | code/examples/security/hash_chain_minimal/hash_chain_minimal.c:141-180 | equal final digests mean equal image sequences, or the computed finding is a collision, or for different counts a 64-byte preimage of the zero digest |
| `HashChain.ConfusableIffCollision` | code/examples/security/hash_chain_minimal/hash_chain_minimal.c:178-180 | for equal counts, two sequences with one digest exist if and only if the hash has a collision |
| `HashChain.LastInput` | code/examples/security/hash_chain_minimal/hash_chain_minimal.c:103-137 | an extension hashes exactly 64 bytes |
| `HashChain.HexInjective` | code/examples/security/hash_chain_minimal/hash_chain_minimal.c:32-42 | the printed hex text determines the bytes, their number included |
| `HashChain.HexDigits` | code/examples/security/hash_chain_minimal/hash_chain_minimal.c:38-39 | characters 2i and 2i + 1 of the text have the values of the upper and the lower half of byte i |
| `HashChain.UnhexHex` | code/examples/security/hash_chain_minimal/hash_chain_minimal.c:38-39 | reading the printed digits in pairs yields the bytes |
| `HashChain.LineDigits` | code/examples/security/hash_chain_minimal/hash_chain_minimal.c:32-42 | in a printed line the two characters for byte i stand behind the label at 2i and 2i + 1 and have the values of its upper and its lower half |
| `HashChain.HexLine` | code/examples/security/hash_chain_minimal/hash_chain_minimal.c:32-42 | a printed line is the label, twice as many characters as bytes and a newline, and decodes to the bytes |
| `HashChain.PrintHex` | code/examples/security/hash_chain_minimal/hash_chain_minimal.c:32-42 | the loop prints the label, the hexadecimal text of the bytes and a newline; `LineDigits` and `HexLine` say what that is |
| `HashChain.Stream.Fread` | code/examples/security/hash_chain_minimal/hash_chain_minimal.c:71 | any split of the content into chunks of at most the buffer size; a read that an error cuts short may still return bytes |
| `HashChain.HashStream` | code/examples/security/hash_chain_minimal/hash_chain_minimal.c:66-93 | however reads split the file, the result is the hash of the whole content, and there is one exactly if no call failed |
| `HashChain.Sha256File` | code/examples/security/hash_chain_minimal/hash_chain_minimal.c:44-101 | the same, exactly if the file opens and no call fails; every path closes the file and frees the context |
| `HashChain.ExtendChain` | code/examples/security/hash_chain_minimal/hash_chain_minimal.c:103-137 | the hash of chain followed by measurement, exactly if no call fails; the context is freed on every path |
| `HashChainProgram.MeasureComponent` | code/examples/security/hash_chain_minimal/hash_chain_minimal.c:157-173 | one iteration announces the path, then extends the chain buffer by the file's hash and prints both digests, or leaves the buffer alone and stops before or after the measurement line |
| `HashChainProgram.MeasureComponents` | code/examples/security/hash_chain_minimal/hash_chain_minimal.c:139-183 | the run succeeds exactly if there are components, all can be read and no call fails; its whole output is then that of the fold over all contents, and otherwise exactly the text up to one component |
| `HashChainProgram.OneComponentText` | code/examples/security/hash_chain_minimal/hash_chain_minimal.c:154-180 | the output for one component, character by character |
| `HashChainProgram.AnnouncementReportsIff` | code/examples/security/hash_chain_minimal/hash_chain_minimal.c:158 | for any number and path the announcement contains a line that starts with the final heading if and only if the path has that heading behind a newline |
| `HashChainProgram.FullTextReports` | code/examples/security/hash_chain_minimal/hash_chain_minimal.c:154-180 | the lines of a successful output that report a digest are those in the paths, followed by the line for the fold |
| `HashChainProgram.FailureReportsIffForged` | code/examples/security/hash_chain_minimal/hash_chain_minimal.c:157-168 | the output of a run that fails at component k reports a digest if and only if a path up to k contains a report |
| `HashChainProgram.ForgedPathExists` | code/examples/security/hash_chain_minimal/hash_chain_minimal.c:158 | a path that is forged |
| `HashChainProgram.ReportMeansSuccess` | code/examples/security/hash_chain_minimal/hash_chain_minimal.c:139-183 | if no path contains a report, the output reports a digest if and only if the run succeeded, once, and it is the digest of all contents |
| `HashChainProgram.EqualReportsExplained` | code/examples/security/hash_chain_minimal/hash_chain_minimal.c:175-180 | whatever the paths, two successful runs whose outputs end in the same report measured the same sequence or expose a break of the hash |
| `XtOptions.LayoutTerminated` | cases-study/nxp/imx8mp-connman-tethering-iptables-crash-analysis.md:270-272 | a merged table has one sentinel, at its end |
| `XtOptions.TwoExtensions` | cases-study/nxp/imx8mp-connman-tethering-iptables-crash-analysis.md:311-316 | the worked example: reject-with is 513 and stands before dport 257 and sport 258 |
| `XtOptions.XtParams.DupOrigOpts` | cases-study/nxp/imx8mp-connman-tethering-iptables-crash-analysis.md:136-151 | a new heap block equal to the template with its sentinel, or NULL exactly if there is no memory |
| `XtOptions.XtParams.Reset` | cases-study/nxp/imx8mp-connman-tethering-iptables-crash-analysis.md:153-161 | frees the table in use unless it is the static one, installs a copy or NULL, restarts the offsets |
| `XtOptions.XtParams.FreeOpts` | cases-study/nxp/imx8mp-connman-tethering-iptables-crash-analysis.md:103-117 | both free policies; only the unconditional one aborts on the static table |
| `XtOptions.XtParams.BuildMerge` | cases-study/nxp/imx8mp-connman-tethering-iptables-crash-analysis.md:285-303 | the in-place construction yields template, shifted options, old tail, sentinel |
| `XtOptions.XtParams.MergeOptions` | cases-study/nxp/imx8mp-connman-tethering-iptables-crash-analysis.md:275-309 | the new table lists one more extension at the next offset, the old one is freed after its last read; it aborts if and only if the unconditional policy meets the static table |
| `XtOptions.XtParams.Run` | cases-study/nxp/imx8mp-connman-tethering-iptables-crash-analysis.md:458-501 | over any resets and merges at most one table is live, each other was freed once, none was read after that; the process aborts if and only if the first operation merges under the unconditional policy |
| `XtOptions.WindowsDecode` | cases-study/nxp/imx8mp-connman-tethering-iptables-crash-analysis.md:318-336 | a shifted value lies in its extension's window and no other and shifts back; base values lie in none |
| `XtOptions.OwnWindowIffSmall` | cases-study/nxp/imx8mp-connman-tethering-iptables-crash-analysis.md:320-334 | an option is routed to its own extension if and only if its declared value is below 256, and otherwise to a later window |
| `XtOptions.OptionReachesItsExtension` | cases-study/nxp/imx8mp-connman-tethering-iptables-crash-analysis.md:311-336 | looking up a name in the merged table leads to its extension's window alone and to the declared value, wherever the extension stands |
| `XtOptions.BaseOptionStaysBase` | cases-study/nxp/imx8mp-connman-tethering-iptables-crash-analysis.md:311-336 | looking up a base option in the merged table yields the value the template declares, which lies in the window of an extension if and only if it was declared there, so in none below 256 |
| `EosRace.RunKeepsInvariant` | cases-study/nxp/imx95-gstreamer-v4l2videodec-eos-lost-race-analysis.md:280-294 | in every interleaving the life cycle of `output_flow` and the decisions of all frames stay consistent |
| `EosRace.EosIsNeverLost` | cases-study/nxp/imx95-gstreamer-v4l2videodec-eos-lost-race-analysis.md:263-292 | with the patch a frame woken by the loop's exit with reason r returns r unless `output_flow` was reset in between |
| `EosRace.OriginalReturnsReasonIffPaused` | cases-study/nxp/imx95-gstreamer-v4l2videodec-eos-lost-race-analysis.md:178-187 | without it the frame returns r if and only if it read the task state after the pause |
| `EosRace.FlushReturnsFlushing` | cases-study/nxp/imx95-gstreamer-v4l2videodec-eos-lost-race-analysis.md:289-294 | an interrupted frame, no exit for a reason other than FLUSHING being recorded, returns FLUSHING or OK, and if it saw the task running FLUSHING unless `output_flow` was set to OK between the two comparisons; whether the flush or the loop it stopped wakes the frame does not matter |
| `EosRace.InterruptedFrameResult` | cases-study/nxp/imx95-gstreamer-v4l2videodec-eos-lost-race-analysis.md:263-294 | exactly when an interrupted frame returns a reason, and, if it saw the task running, OK or FLUSHING, with and without the patch |
| `EosRace.FlushedLoopReturnsFlushing` | cases-study/nxp/imx95-gstreamer-v4l2videodec-eos-lost-race-analysis.md:284-289 | a run in which a flush stops the loop, the loop leaves with FLUSHING and wakes the frame, and the frame returns FLUSHING |
| `EosRace.WokenFrameSettles` | cases-study/nxp/imx95-gstreamer-v4l2videodec-eos-lost-race-analysis.md:263-278 | the input thread alone completes and returns the reason, even before the pause |
| `EosRace.OriginalLosesEos` | cases-study/nxp/imx95-gstreamer-v4l2videodec-eos-lost-race-analysis.md:209-219 | the run that hangs: the frame reads STARTED between unlock and pause and returns FLUSHING |
| `EosRace.PatchedFlushMayReturnOk` | cases-study/nxp/imx95-gstreamer-v4l2videodec-eos-lost-race-analysis.md:270-289 | a run of the patched code in which a flushed frame returns OK |
| `EosRace.PatchedFlushMayReturnReason` | cases-study/nxp/imx95-gstreamer-v4l2videodec-eos-lost-race-analysis.md:263-292 | a run of the patched code in which a frame flushed after the loop recorded EOS returns EOS |
| `EosRace.FlowFollowsTable` | cases-study/nxp/imx95-gstreamer-v4l2videodec-eos-lost-race-analysis.md:280-287 | in every run `output_flow` holds what the life-cycle table lists for the last step that is in it |
| `EosRace.UnstartedFrameResult` | cases-study/nxp/imx95-gstreamer-v4l2videodec-eos-lost-race-analysis.md:263-278 | an interrupted frame that did not see the task started returns the value the table lists last before its return |
| `EosRace.NothingBlocks` | cases-study/nxp/imx95-gstreamer-v4l2videodec-eos-lost-race-analysis.md:166-187 | no step of either thread waits for the other, and a flush may come at any time |
| `EosRace.EveryRunCanRest` | cases-study/nxp/imx95-gstreamer-v4l2videodec-eos-lost-race-analysis.md:280-294 | every run can go on until the frame in hand has returned and the loop has left, for any reason |
| `PlaneSearch.GetPropId` | code/examples/drm/drm_atomic_commit_flow/userspace/atomic_modeset_minimal.c:56-84 | the first readable property of the name with a non-zero id, else 0; everything obtained is freed |
| `PlaneSearch.FirstNamedIsSome` | code/examples/drm/drm_atomic_commit_flow/userspace/atomic_modeset_minimal.c:68-80 | the result is 0 if and only if no listed property matches, and otherwise the id of the first match |
| `PlaneSearch.FindConnectorCrtc` | code/examples/drm/drm_atomic_commit_flow/userspace/atomic_modeset_minimal.c:159-214 | picks the first connector that can be read, is connected and has a mode, succeeds if and only if its encoder can be read; everything obtained is freed on every path |
| `Bits.TestBit` | code/examples/drm/drm_atomic_commit_flow/userspace/atomic_modeset_minimal.c:256 | `x & (1 << k)` is not 0 if and only if x / 2^k is odd |
| `PlaneSearch.FindPrimaryPlane` | code/examples/drm/drm_atomic_commit_flow/userspace/atomic_modeset_minimal.c:216-292 | returns the first eligible plane in list order if and only if both lists are available, the CRTC is listed and such a plane exists; everything obtained is freed on every path |
| `PlaneSearch.CheckPlane` | code/examples/drm/drm_atomic_commit_flow/userspace/atomic_modeset_minimal.c:252-284 | accepts a plane if and only if the bit of the CRTC is set in its mask, as an integer, and its table has the looked-up id with value PRIMARY |
| `PlaneSearch.TypedPrimaryMeansPrimary` | code/examples/drm/drm_atomic_commit_flow/userspace/atomic_modeset_minimal.c:261-272 | on a table that is stable over the two queries the id test is the test of the property called "type" |
| `PlaneSearch.FoundPlaneIsFirstPrimary` | code/examples/drm/drm_atomic_commit_flow/userspace/atomic_modeset_minimal.c:246-287 | if the tables do not change, the plane found is the first one whose mask, divided by 2 to the CRTC's index, is odd and whose property called "type" is PRIMARY |
| `AtomicRequest.LoadProps` | code/examples/drm/drm_atomic_commit_flow/userspace/atomic_modeset_minimal.c:294-327 | every field is the id of its property; the CRTC_ID kept is the plane's |
| `AtomicRequest.AssembleRequest` | code/examples/drm/drm_atomic_commit_flow/userspace/atomic_modeset_minimal.c:371-406 | NULL, or a new request that is the thirteen wishes, each on the right object with the id looked up there |
| `AtomicRequest.RequestMeansWishes` | code/examples/drm/drm_atomic_commit_flow/userspace/atomic_modeset_minimal.c:379-406 | an assignment writes a wished-for property if and only if it grants that wish, with its value; no two write the same property of the same object |
| `AtomicRequest.RequestRoutesPipeline` | code/examples/drm/drm_atomic_commit_flow/userspace/atomic_modeset_minimal.c:379-406 | read property by property, the request puts the framebuffer on the plane and plane and connector on the same active CRTC with the mode; both rectangles begin at the origin, and nothing is scaled if and only if the sizes are below 32768 |
| `AtomicRequest.DifferentNamesDifferentIds` | code/examples/drm/drm_atomic_commit_flow/userspace/atomic_modeset_minimal.c:297-324 | on one object two names that are found have the same id if and only if they are the same name |
| `AtomicRequest.ShiftIsFixedPointIff` | code/examples/drm/drm_atomic_commit_flow/userspace/atomic_modeset_minimal.c:396-399 | the int shift is the 16.16 value if and only if the size is below 32768; otherwise the sign is extended |
| `AtomicRequest.SourceIsTargetIff` | code/examples/drm/drm_atomic_commit_flow/userspace/atomic_modeset_minimal.c:394-406 | the source rectangle decodes to the CRTC rectangle if and only if both sizes are below 32768 |
| `AtomicProgram.FindTarget` | code/examples/drm/drm_atomic_commit_flow/userspace/atomic_modeset_minimal.c:352-356 | both searches: the connector, CRTC, mode and plane they pick, or which of the two fails |
| `AtomicProgram.FillPixels` | code/examples/drm/drm_atomic_commit_flow/userspace/atomic_modeset_minimal.c:129-141 | the in-place loops perform the row fills, and without a wrap the frame takes the colour |
| `AtomicProgram.CommitRequest` | code/examples/drm/drm_atomic_commit_flow/userspace/atomic_modeset_minimal.c:371-417 | how the request ends is decided by memory and commit alone; it grants the wishes, routes the pipeline on a complete device, and is freed on every path |
| `AtomicProgram.RunAtomic` | code/examples/drm/drm_atomic_commit_flow/userspace/atomic_modeset_minimal.c:329-433 | for all answers of the driver, the ending is the one of the first call that fails; what is committed is for the objects the searches picked, with every pixel of the framebuffer green unless it wraps; all libdrm objects and the request are freed; everything else is explicitly released before `close`, once, if and only if the buffer was created or its creation failed at the first step |
| `LockedCounter.RunKeepsInvariant` | code/examples/synchronization/mutex/mutex_example.c:22-24 | in every interleaving at most one thread is inside the lock, and a loaded value is the current one |
| `LockedCounter.Linearizable` | code/examples/synchronization/mutex/mutex_example.c:12-65 | every operation yields what a sequential counter yields at a point between its invocation and its return; the counter is the sum of the deltas in lock order, wrapped to 32 bits |
| `LockedCounter.RealTimeOrder` | code/examples/synchronization/mutex/mutex_example.c:12-65 | an operation that returned before another began precedes it |
| `LockedCounter.EffectsAreDistinct` | code/examples/synchronization/mutex/mutex_example.c:12-65 | no two operations share their effect, and each thread's operations keep their order |
| `LockedCounter.WrapOnce` | code/examples/synchronization/mutex/mutex_example.c:60 | 64-bit intermediate sums and repeated truncation amount to one wrap at 32 bits |
| `LockedCounter.StepConserves` | code/examples/mutex_example.c:13-27 | operations that took effect and operations pending add up to a constant |
| `LockedCounter.OnlyTheLockBlocks` | code/examples/synchronization/mutex/mutex_example.c:22-24 | a thread with operations left can move unless it waits for a lock that another thread holds |
| `LockedCounter.EveryRunCanFinish` | code/examples/synchronization/mutex/mutex_example.c:12-65 | no interleaving ends in a deadlock: every run can go on until all threads have finished |
| `LockedCounter.WorkersCountUp` | code/examples/mutex_example.c:13-27 | n workers with k iterations log 1, 2, 3, ... without gap or repeat, n * k values when all have finished |
| `CounterText.PrintLength` | code/examples/synchronization/mutex/mutex_example.c:26 | the text of an int has at most 12 characters and is not truncated by the 32-byte buffer |
| `CounterText.PrintParseRoundTrip` | code/examples/synchronization/mutex/mutex_example.c:26-55 | what a read prints, a write parses back to the same number |
| `CounterText.PrintInjective` | code/examples/synchronization/mutex/mutex_example.c:26 | two counter values with the same text are equal |
| `CounterText.PrintCanonical` | code/examples/synchronization/mutex/mutex_example.c:26 | a minus sign if and only if the number is negative, its decimal digits without leading zeros, a newline |
| `CounterText.ParsesEverySpelling` | code/examples/synchronization/mutex/mutex_example.c:53-55 | an optional sign, digits and an optional newline are parsed as the number they spell, or are out of range |
| `CounterText.ParsesOnlySpellings` | code/examples/synchronization/mutex/mutex_example.c:53-55 | nothing else is accepted |
| `CounterText.CounterDevice.MyRead` | code/examples/synchronization/mutex/mutex_example.c:12-38 | at position 0 the whole text, or -EFAULT, or -EINVAL exactly if the count is below its length; end of file elsewhere |
| `CounterText.CounterDevice.MyWrite` | code/examples/synchronization/mutex/mutex_example.c:40-65 | the result for every length and fault; the counter takes the parsed delta, or keeps its value and an error is returned |
| `CounterText.Echo` | code/examples/synchronization/mutex/mutex_example.c:12-65 | writing back what was read doubles the counter modulo 2^32, unless a copy faults |
| `Completion.TokensConserved` | code/examples/synchronization/completion/completion_example.c:15-54 | executions equal reads released plus tokens present plus tokens discarded |
| `Completion.CallsAreCounted` | code/examples/synchronization/completion/completion_example.c:24-54 | reads that began are waiting or released, every write schedules once, every execution posts one token |
| `Completion.ReleasedByFreshToken` | code/examples/synchronization/completion/completion_example.c:24-54 | a released read consumed a token posted after the most recent reinit, by work armed two seconds before |
| `Completion.NoLostWakeup` | code/examples/synchronization/completion/completion_example.c:44-54 | if nothing is on its way and no token is left, the last write's tokens have all released readers |
| `Completion.ReadMayReturnIff` | code/examples/synchronization/completion/completion_example.c:15-54 | a waiting read can return without a further write if and only if a token is there or an execution is on its way |
| `Completion.NothingBlocks` | code/examples/synchronization/completion/completion_example.c:24-54 | time passes and calls begin at any time; scheduled, due and started work can go on |
| `Completion.WriteGetsItsDelayIff` | code/examples/synchronization/completion/completion_example.c:44-54 | in every continuation all reads of a write's epoch are released two seconds after its reinit or later, if and only if at the reinit the work function is not running and the work is not pending, or pending since that moment |
| `Completion.PendingWorkCutsDelay` | code/examples/synchronization/completion/completion_example.c:49-51 | a run in which a write finds the work pending and the read after it is released one millisecond later |
| `Epaper.AddressingIsBijective` | cases-study/nxp/imx93-m33-zephyr-ssd1680-lpspi-transfer-bug-analysis.md:464-468 | 250 gates by 128 sources address the bits of 4000 bytes one to one and onto |
| `Epaper.OneBitChanges` | cases-study/nxp/imx93-m33-zephyr-ssd1680-lpspi-transfer-bug-analysis.md:466-467 | `b | m` and `b & ~m` change one bit of the byte, in terms of the quotients of the byte by powers of two |
| `Epaper.FbSet` | cases-study/nxp/imx93-m33-zephyr-ssd1680-lpspi-transfer-bug-analysis.md:464-468 | of the 32000 bits of the raw frame exactly bit 7 - src % 8 of byte 16 * gate + src / 8 takes the colour |
| `Epaper.PackedBit` | cases-study/nxp/imx93-m33-zephyr-ssd1680-lpspi-transfer-bug-analysis.md:197-205 | shifting a packed word yields the pixel packed there, and 0 behind the row |
| `Epaper.ImgWhiteUnpacks` | cases-study/nxp/imx93-m33-zephyr-ssd1680-lpspi-transfer-bug-analysis.md:469-472 | for any 211x103 image, the lookup in its 721 words is the pixel, and white outside |
| `Epaper.Render` | cases-study/nxp/imx93-m33-zephyr-ssd1680-lpspi-transfer-bug-analysis.md:199-205 | after drawing, every one of the 250x128 pixels is the image's or white |
| `Epaper.Panel.EpdRefresh` | cases-study/nxp/imx93-m33-zephyr-ssd1680-lpspi-transfer-bug-analysis.md:452-459 | the transfers are the RAM command, the frame one byte at a time in order, and the update commands |
| `Epaper.RefreshDelivers` | cases-study/nxp/imx93-m33-zephyr-ssd1680-lpspi-transfer-bug-analysis.md:430-459 | the data bytes after the RAM command are exactly the frame |
| `Epaper.DisplayImage` | cases-study/nxp/imx93-m33-zephyr-ssd1680-lpspi-transfer-bug-analysis.md:195-207 | bit k of byte i of the panel's memory is set exactly if the pixel at gate i / 16 and source 8 * (i % 16) + 7 - k is white in the image, or outside of it |

## Left out

- Real ioctls, mmap, select, libdrm, OpenSSL, the kernel's lock, completion and workqueue: replaced by nondeterministic answers and short contracts (a flip is latched before its event is posted; a work item does not run twice at once).
- Which libxtables merges free the old table: the section on `xtables_merge_options` calls that free new in 1.8.11, while the compatibility notes (E.3) rely on the older library freeing it there too. The model merges with a free under both policies.
- SHA-256 itself: the programs only call it, and collision freedom is nowhere assumed.
- RunProgram: requires the driver's contract for a dumb buffer (the mapping holds whole rows), and so does RunAtomic.
- FindPrimaryPlane: requires fewer than 32 CRTCs, as RunAtomic does, because the C shift is undefined beyond that.
- OptionReachesItsExtension: requires offsets within the range of `int`, which some eight million merges without a reset would leave.
- Vblanks between the single releases of the cleanup, and what the kernel shows once a framebuffer is gone: the screen record ends when the cleanup begins.
- What the hash-chain program writes to stderr, and failing writes to stdout.
- Partial `drmModeAtomicAddProperty` failures and the commit: the return values are ignored by the program, and the commit is the kernel's.
- Merge allocation failure in libxtables, and abbreviated option names in `getopt_long`.
- The rest of the decoder around the quoted exits: stopping and restarting the task is modelled as far as the life-cycle table goes; memory ordering weaker than interleaving is not.
- `copy_to_user`, `copy_from_user` and `kstrtol` are not part of this repository; the first two may fail at will, the last follows its documented format.
- The reset and initialisation sequence of the panel: the model starts with the write-RAM command, and takes the panel's memory to be the data bytes after it.
- The loops that draw the e-paper image are not quoted; the model sets every pixel once, in gate order.
- `modeset_minimal.c`, `dumb_buffer.c`, `prime_fd_notes.c`, the spinlock driver: the same steps with less state.
- Driver skeletons, module examples, `generate_index.js` and the remaining notes: registration, single callbacks, directory listing, prose.
