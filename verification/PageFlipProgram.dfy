/** The whole page-flip program: buffers, frames, and the cleanup every path ends in. */
module PageFlipProgram {
  import opened Words
  import opened FillColor
  import opened Slideshow
  import opened DumbBuffers
  import opened PageFlip

  const NUM_BUFS: nat := 2

  /** What the driver returned for the two buffers: mappings that hold whole rows. */
  ghost predicate DriverContract(geos: seq<Geometry>, sizes: seq<nat>) {
    && |geos| == |sizes| == NUM_BUFS
    && geos[0].width == geos[1].width && geos[0].height == geos[1].height
    && forall b: nat | b < NUM_BUFS :: HoldsFrame(geos[b], sizes[b])
  }

  /** The pictures of the frames in order, and after a failure perhaps the one whose flip was queued. */
  ghost predicate ShownFrames(shown: seq<Frame>, mems: seq<seq<byte>>, geos: seq<Geometry>, frames: nat,
                              ok: bool, complete: nat)
    requires DoubleBuffer(mems, geos)
  {
    || shown == Pictures(mems, geos, complete)
    || (!ok && 0 < complete < frames && shown == Pictures(mems, geos, complete + 1))
  }

  /** The same with complete, uniform frames. */
  ghost predicate ShownSlides(shown: seq<Frame>, geos: seq<Geometry>, frames: nat, ok: bool, complete: nat)
    requires |geos| == NUM_BUFS
  {
    || shown == Slides(complete, geos[0].width, geos[0].height)
    || (!ok && 0 < complete < frames && shown == Slides(complete + 1, geos[0].width, geos[0].height))
  }

  /**
   * What a run that showed `complete` frames promises: the pictures; the slides, if no row offset wraps;
   * and, if it succeeds with four frames or more, the slides only then.
   */
  ghost predicate Screened(shown: seq<Frame>, mems: seq<seq<byte>>, geos: seq<Geometry>, frames: nat,
                           ok: bool, complete: nat)
    requires |geos| == NUM_BUFS
  {
    && DoubleBuffer(mems, geos) && ShownFrames(shown, mems, geos, frames, ok, complete)
    && (NoWrap(geos[0]) && NoWrap(geos[1]) ==> ShownSlides(shown, geos, frames, ok, complete))
    && (ok && frames >= 4 && geos[0].height > 0 && 0 < geos[0].width && 8 * geos[0].width <= TWO_32 ==>
          (shown == Slides(frames, geos[0].width, geos[0].height) <==> NoWrap(geos[0]) && NoWrap(geos[1])))
  }

  lemma FramesAreScreened(shown: seq<Frame>, mems: seq<seq<byte>>, geos: seq<Geometry>, frames: nat,
                          ok: bool, complete: nat)
    requires DoubleBuffer(mems, geos) && ShownFrames(shown, mems, geos, frames, ok, complete)
    requires ok ==> complete == frames
    ensures Screened(shown, mems, geos, frames, ok, complete)
  {
    if NoWrap(geos[0]) && NoWrap(geos[1]) {
      PicturesAreSlides(mems, geos, complete);
      PicturesAreSlides(mems, geos, complete + 1);
    }
    if ok && frames >= 4 && geos[0].height > 0 && 0 < geos[0].width && 8 * geos[0].width <= TWO_32 {
      SlidesIffNoWrap(mems, geos, frames);
    }
  }

  lemma NothingScreened(geos: seq<Geometry>, sizes: seq<nat>, frames: nat) returns (mems: seq<seq<byte>>)
    requires DriverContract(geos, sizes)
    ensures Screened([], mems, geos, frames, false, 0)
  {
    mems := [seq(sizes[0], _ => 0), seq(sizes[1], _ => 0)];
    FramesAreScreened([], mems, geos, frames, false, 0);
  }

  /** The frames, and the vblanks after the last of them. */
  method FlipAndPass(app: App, frames: nat) returns (ok: bool, complete: nat, ghost shown: seq<Frame>)
    requires frames > 0 && app.display.Valid() && app.display.scanout == None && app.display.queued == None
    requires app.display.events == 0 && app.display.shown == []
    requires app.front == 0 && app.back == 1 && !app.pending
    modifies app`front, app`back, app`pending
    modifies app.display`scanout, app.display`queued, app.display`events, app.display`shown, app.display`failures
    modifies app.display.maps[0], app.display.maps[1]
    ensures ok <==> app.display.failures == old(app.display.failures)
    ensures complete <= frames && (ok ==> complete == frames)
    ensures ShownFrames(shown, old(app.Memories()), app.display.geos, frames, ok, complete)
  {
    ghost var mems := app.Memories();
    ok, complete := app.RunFrames(frames);
    app.LetPass(mems, complete);
    shown := app.display.shown;
  }

  /**
   * The part of `main` between creating the buffers and `err_destroy`, and the vblanks before the
   * buffers are destroyed: a flip that is still queued then may be latched. `mems` is what the mappings
   * held before.
   */
  method ShowFrames(geos: seq<Geometry>, sizes: seq<nat>, frames: nat)
    returns (ok: bool, complete: nat, ghost shown: seq<Frame>, ghost mems: seq<seq<byte>>, ghost failures: nat)
    requires frames > 0 && DriverContract(geos, sizes)
    ensures ok <==> failures == 0
    ensures complete <= frames && (ok ==> complete == frames)
    ensures Screened(shown, mems, geos, frames, ok, complete)
  {
    var map0, map1 := new byte[sizes[0]], new byte[sizes[1]];
    var display := new Display([map0, map1], geos);
    var app := new App(display);
    mems := app.Memories();
    ok, complete, shown := FlipAndPass(app, frames);
    failures := display.failures;
    FramesAreScreened(shown, mems, geos, frames, ok, complete);
  }

  /** The structures owned `held`, and all of it was taken down, one structure after the other. */
  ghost predicate TornDown(drm: Drm, held: seq<DumbBuffer>)
    reads drm
  {
    && drm.live == {} && multiset(drm.released) == multiset(drm.acquired)
    && |held| == NUM_BUFS && drm.acquired == AllAcquisitions(held) && drm.released == AllReleases(held)
    && TakenDownInTurn(held, drm.released)
  }

  lemma NothingToTearDown(drm: Drm, held: seq<DumbBuffer>)
    requires drm.live == {} && drm.acquired == [] && drm.released == []
    requires |held| == NUM_BUFS && forall i | 0 <= i < |held| :: held[i] == ZEROED
    ensures TornDown(drm, held)
  {
    ZeroedOwnNothing(held);
    ReleasesInTurn(held);
  }

  /** The part of `main` after `find_connector_and_crtc`. */
  method UseConnector(drm: Drm, bufs: array<DumbBuffer>, geos: seq<Geometry>, sizes: seq<nat>, frames: nat)
    returns (ok: bool, complete: nat, ghost held: seq<DumbBuffer>, ghost shown: seq<Frame>,
             ghost mems: seq<seq<byte>>, ghost failures: nat)
    requires drm.live == {} && drm.acquired == [] && drm.released == []
    requires frames > 0 && DriverContract(geos, sizes)
    requires bufs.Length == NUM_BUFS && forall i | 0 <= i < NUM_BUFS :: bufs[i] == ZEROED
    modifies drm, bufs
    ensures TornDown(drm, held)
    ensures ok <==> drm.failures == old(drm.failures) && failures == 0
    ensures complete <= frames && (ok ==> complete == frames)
    ensures Screened(shown, mems, geos, frames, ok, complete)
    ensures complete > 0 || shown != [] ==> AllComplete(held)
  {
    complete, shown, failures := 0, [], 0;
    mems := NothingScreened(geos, sizes, frames);
    ok := CreateAll(drm, bufs);
    if ok {
      ok, complete, shown, mems, failures := ShowFrames(geos, sizes, frames);
    }
    held := bufs[..];
    CleanUp(drm, bufs);
  }

  /**
   * `main` with any number of frames; `found` is what `find_connector_and_crtc` answers, `failures` how
   * many calls of the frame loop failed. The run succeeds exactly if no call fails. Wherever it fails,
   * nothing stays acquired, every acquisition was released once, one buffer after the other and each in
   * the order unmap, framebuffer, handle, and the screen has shown a prefix of the slides, unless row
   * offsets wrap: a run of four frames or more that succeeds has shown the slides if and only if they do
   * not. `held` is what the structures own when control reaches `err_destroy`, or `err_close` if no
   * connector is found.
   */
  method RunProgram(drm: Drm, found: bool, geos: seq<Geometry>, sizes: seq<nat>, frames: nat)
    returns (ok: bool, complete: nat, ghost held: seq<DumbBuffer>, ghost shown: seq<Frame>,
             ghost mems: seq<seq<byte>>, ghost failures: nat)
    requires drm.live == {} && drm.acquired == [] && drm.released == []
    requires frames > 0 && DriverContract(geos, sizes)
    modifies drm
    ensures TornDown(drm, held)
    ensures ok <==> found && drm.failures == old(drm.failures) && failures == 0
    ensures complete <= frames && (ok ==> complete == frames)
    ensures Screened(shown, mems, geos, frames, ok, complete)
    ensures complete > 0 || shown != [] ==> AllComplete(held)
  {
    var bufs := new DumbBuffer[NUM_BUFS](_ => ZEROED);
    if !found {
      held, shown, failures := bufs[..], [], 0;
      mems := NothingScreened(geos, sizes, frames);
      NothingToTearDown(drm, held);
      return false, 0, held, shown, mems, failures;
    }
    ok, complete, held, shown, mems, failures := UseConnector(drm, bufs, geos, sizes, frames);
  }
}
