/**
 * The double-buffered page flip: an application that draws, requests a flip, waits for its event and
 * swaps, against a display engine whose vblanks may fall between any two of its steps.
 */
module PageFlip {
  import opened Words
  import opened FillColor
  import opened Slideshow

  /** How `select` returned; `Readable` means that the device is in the set. */
  datatype Selected = SelectFailed | Interrupted | NotOurs | Readable

  /** The display engine of one CRTC, with the two mapped buffers it can scan out. */
  class Display {
    const maps: seq<array<byte>>
    const geos: seq<Geometry>
    var scanout: Option<nat>  // the buffer on the screen, once a mode is set
    var queued: Option<nat>   // an accepted flip that no vblank has latched yet
    var events: nat           // flip events waiting on the file descriptor
    ghost var failures: nat  // how many calls have failed: SetCrtc, PageFlip, select, drmHandleEvent
    ghost var shown: seq<Frame>  // the different frames the screen has shown, in order

    constructor (maps: seq<array<byte>>, geos: seq<Geometry>)
      requires |maps| == |geos| == 2 && maps[0] != maps[1]
      requires geos[0].width == geos[1].width && geos[0].height == geos[1].height
      requires forall b: nat | b < 2 :: HoldsFrame(geos[b], maps[b].Length)
      ensures Valid() && this.maps == maps && this.geos == geos
      ensures scanout == None && queued == None && events == 0 && shown == [] && failures == 0
    {
      this.maps, this.geos := maps, geos;
      scanout, queued, events, failures, shown := None, None, 0, 0, [];
    }

    ghost predicate Shape()
      reads this
    {
      && |maps| == |geos| == 2 && maps[0] != maps[1]
      && geos[0].width == geos[1].width && geos[0].height == geos[1].height
      && (forall b: nat | b < 2 :: HoldsFrame(geos[b], maps[b].Length))
      && (scanout.Some? ==> scanout.value < 2)
      && (queued.Some? ==> scanout.Some? && queued.value < 2)
    }

    /** The pixels buffer b would show. */
    ghost function View(b: nat): Frame
      requires b < 2 && Shape()
      reads this, maps
    {
      Visible(maps[b][..], geos[b])
    }

    /** The screen has no change that was not recorded. */
    ghost predicate Valid()
      reads this, maps
    {
      Shape() && (scanout.Some? ==> shown != [] && shown[|shown| - 1] == View(scanout.value))
    }

    /** Scan the current buffer out. */
    ghost method Observe()
      requires Shape()
      modifies this`shown
      ensures scanout.None? ==> shown == old(shown)
      ensures scanout.Some? ==> shown == Note(old(shown), View(scanout.value)) && Valid()
    {
      if scanout.Some? {
        shown := Note(shown, View(scanout.value));
      }
    }

    /** A vertical blank: latch the queued flip, if any, and post its event. */
    method Vblank()
      requires Shape()
      modifies this`scanout, this`queued, this`events, this`shown
      ensures Shape() && (scanout.Some? ==> Valid())
      ensures queued == None
      ensures scanout == if old(queued).Some? then old(queued) else old(scanout)
      ensures events == if old(queued).Some? then old(events) + 1 else old(events)
      ensures shown == if scanout.Some? then Note(old(shown), View(scanout.value)) else old(shown)
    {
      if queued.Some? {
        scanout, queued, events := queued, None, events + 1;
      }
      Observe();
    }

    /** No flip was latched: the screen keeps showing the buffer it showed. */
    twostate predicate Waited()
      requires Shape()
      reads this, maps
    {
      && scanout == old(scanout) && queued == old(queued) && events == old(events)
      && shown == if scanout.Some? then Note(old(shown), View(scanout.value)) else old(shown)
    }

    /** Exactly one flip was latched, and its event posted. */
    twostate predicate Latched()
      requires Shape() && old(Shape())
      reads this, maps
    {
      && old(queued).Some? && scanout == old(queued) && queued == None && events == old(events) + 1
      && shown == Note(Note(old(shown), View(old(scanout).value)), View(old(queued).value))
    }

    /** Time passes: the screen is scanned out, with any number of vblanks. */
    method Pass()
      requires Shape()
      modifies this`scanout, this`queued, this`events, this`shown
      ensures Shape() && (scanout.Some? ==> Valid())
      ensures old(scanout).None? ==> scanout.None? && shown == old(shown)
      ensures Waited() || Latched()
    {
      Observe();
      var vblanks: nat := *;
      while vblanks > 0
        invariant Shape() && (scanout.Some? ==> Valid())
        invariant old(scanout).None? ==> scanout.None? && shown == old(shown)
        invariant Waited() || Latched()
      {
        Vblank();
        vblanks := vblanks - 1;
      }
    }

    /** One 32-bit pixel store of the application; vblanks may follow before its next step. */
    method Store(b: nat, at: nat, color: uint32)
      requires Valid() && b < 2 && at + 4 <= maps[b].Length
      modifies this`scanout, this`queued, this`events, this`shown, maps[b]
      ensures maps[b][..] == StorePixel(old(maps[b][..]), at, color)
      ensures Shape() && (scanout.Some? ==> Valid())
      ensures old(queued).None? ==> scanout == old(scanout) && queued == None && events == old(events)
      ensures old(queued).None? && old(scanout) != Some(b) ==> shown == old(shown)
    {
      var pixels := maps[b];
      pixels[at], pixels[at + 1] := ColorByte(color, 0), ColorByte(color, 1);
      pixels[at + 2], pixels[at + 3] := ColorByte(color, 2), ColorByte(color, 3);
      assert pixels[..] == StorePixel(old(pixels[..]), at, color);
      Pass();
    }

    /** `drmModeSetCrtc`: on success buffer b is on the screen. */
    method SetCrtc(b: nat) returns (ok: bool)
      requires Valid() && b < 2 && scanout == None
      modifies this`scanout, this`shown, this`failures
      ensures Shape() && Valid()
      ensures failures == old(failures) + if ok then 0 else 1
      ensures ok ==> scanout == Some(b) && shown == Note(old(shown), View(b))
      ensures !ok ==> scanout == None && shown == old(shown)
    {
      ok := *;
      if ok {
        scanout := Some(b);
        Observe();
      } else {
        failures := failures + 1;
      }
    }

    /** `drmModePageFlip`: may be refused, and is while another flip is queued. */
    method RequestFlip(b: nat) returns (ok: bool)
      requires Valid() && b < 2 && scanout.Some?
      modifies this`queued, this`failures
      ensures Valid()
      ensures failures == old(failures) + if ok then 0 else 1
      ensures ok ==> old(queued) == None && queued == Some(b)
      ensures !ok ==> queued == old(queued)
    {
      ok := *;
      ok := ok && queued == None;
      if ok {
        queued := Some(b);
      } else {
        failures := failures + 1;
      }
    }

    /**
     * `select` on the device: it fails, or is interrupted (EINTR), or wakes for something else, or for an
     * event, while `stalls` lasts; or it blocks until the queued flip was latched. Time passes meanwhile.
     */
    method Select(stalls: nat) returns (r: Selected, left: nat)
      requires Valid()
      modifies this`scanout, this`queued, this`events, this`shown, this`failures
      ensures Valid() && (Waited() || Latched())
      ensures failures == old(failures) + if r == SelectFailed then 1 else 0
      ensures left <= stalls
      ensures r != SelectFailed && left == stalls ==> r == Readable && queued == None
    {
      left := stalls;
      Pass();
      if
      case stalls > 0 =>
        r, left := Interrupted, stalls - 1;
      case stalls > 0 =>
        r, left := NotOurs, stalls - 1;
      case stalls > 0 =>
        r, left := Readable, stalls - 1;
      case true =>
        r, failures := SelectFailed, failures + 1;
      case true =>
        r := Readable;
        Vblank();
    }

    /** The read in `drmHandleEvent`: all waiting events, or an error. */
    method ReadEvents() returns (batch: Option<nat>)
      modifies this`events, this`failures
      ensures batch.Some? ==> batch.value == old(events) && events == 0 && failures == old(failures)
      ensures batch.None? ==> events == old(events) && failures == old(failures) + 1
    {
      var ok: bool := *;
      if !ok {
        failures := failures + 1;
        return None;
      }
      batch := Some(events);
      events := 0;
    }

    /** The inner loop of `fill_color`: the stores of one row. */
    method FillScanline(b: nat, row: nat, color: uint32)
      requires Valid() && b < 2 && queued == None && scanout != Some(b)
      requires row + 4 * geos[b].width <= maps[b].Length
      modifies this`scanout, this`queued, this`events, this`shown, maps[b]
      ensures Valid() && scanout == old(scanout) && queued == None && events == old(events)
      ensures maps[b][..] == FillRow(old(maps[b][..]), row, geos[b].width, color)
      ensures shown == old(shown)
    {
      var x := 0;
      while x < geos[b].width
        invariant x <= geos[b].width && Valid()
        invariant scanout == old(scanout) && queued == None && events == old(events) && shown == old(shown)
        invariant maps[b][..] == FillRow(old(maps[b][..]), row, x, color)
      {
        Store(b, row + 4 * x, color);
        x := x + 1;
      }
    }

    /** The outer loop of `fill_color`: all rows, one pixel store at a time. */
    method FillScanlines(b: nat, color: uint32)
      requires Valid() && b < 2 && queued == None && scanout != Some(b) && StoresFit(geos[b], maps[b].Length)
      modifies this`scanout, this`queued, this`events, this`shown, maps[b]
      ensures Valid() && scanout == old(scanout) && queued == None && events == old(events)
      ensures maps[b][..] == FillRows(old(maps[b][..]), geos[b], geos[b].height, color)
      ensures shown == old(shown)
    {
      var g := geos[b];
      var y := 0;
      while y < g.height
        invariant y <= g.height && Valid()
        invariant scanout == old(scanout) && queued == None && events == old(events) && shown == old(shown)
        invariant maps[b][..] == FillRows(old(maps[b][..]), g, y, color)
      {
        FillScanline(b, RowOffset(g, y), color);
        y := y + 1;
      }
    }

    /** `fill_color` into buffer b, while the display keeps running. */
    method FillColor(b: nat, color: uint32)
      requires Valid() && b < 2 && queued == None && scanout != Some(b)
      modifies this`scanout, this`queued, this`events, this`shown, maps[b]
      ensures Valid() && scanout == old(scanout) && queued == None && events == old(events)
      ensures StoresFit(geos[b], maps[b].Length)
      ensures maps[b][..] == FillRows(old(maps[b][..]), geos[b], geos[b].height, color)
      ensures NoWrap(geos[b]) ==> View(b) == Uniform(geos[b].width, geos[b].height, color)
      ensures shown == old(shown)
    {
      StoresStayInside(geos[b], maps[b].Length);
      if NoWrap(geos[b]) {
        FillPaintsFrame(maps[b][..], geos[b], color);
      }
      FillScanlines(b, color);
    }
  }

  /** How a wait ended. */
  datatype Outcome = Done | Failed

  /** How a frame of the main loop ended; a failed wait may come before or after the latch. */
  datatype FrameResult = Flipped | Refused | NotLatched | LatchedUnread

  /** `struct app`: which buffer is on the screen, which is drawn, and whether a flip is awaited. */
  class App {
    const display: Display
    var front: nat
    var back: nat
    var pending: bool

    constructor (display: Display)
      requires display.Valid() && display.scanout == None && display.events == 0
      ensures this.display == display && front == 0 && back == 1 && !pending
    {
      this.display := display;
      front, back, pending := 0, 1, false;
    }

    ghost predicate Swappable()
      reads this, display, display.maps
    {
      display.Valid() && display.scanout.Some? && {front, back} == {0, 1}
    }

    /** Nothing awaited: the front buffer is on the screen and no flip is under way. */
    ghost predicate Idle()
      reads this, display, display.maps
    {
      && Swappable() && !pending
      && display.scanout == Some(front) && display.queued == None && display.events == 0
    }

    /** Exactly one flip, to the back buffer, is under way: queued, or latched with its event unread. */
    ghost predicate InFlight()
      reads this, display, display.maps
    {
      && Swappable() && pending
      && ((display.scanout == Some(front) && display.queued == Some(back) && display.events == 0)
          || (display.scanout == Some(back) && display.queued == None && display.events == 1))
    }

    method PageFlipHandler()
      modifies this`front, this`back, this`pending
      ensures !pending && front == old(back) && back == old(front)
    {
      pending := false;
      var tmp := front;
      front := back;
      back := tmp;
    }

    /** `drmHandleEvent`: read what is waiting, call the handler once for every flip event in it. */
    method HandleEvent() returns (ok: bool)
      requires InFlight()
      modifies this`front, this`back, this`pending, display`events, display`failures
      ensures display.failures == old(display.failures) + if ok then 0 else 1
      ensures !ok ==> InFlight() && front == old(front) && back == old(back)
      ensures ok && old(display.events) == 1 ==> Idle() && front == old(back) && back == old(front)
      ensures ok && old(display.events) == 0 ==> InFlight() && front == old(front) && back == old(back)
    {
      var read := display.ReadEvents();
      if read == None {
        return false;
      }
      var batch := read.value;
      while batch > 0
        invariant batch <= old(display.events) && display.events == 0
        invariant display.failures == old(display.failures)
        invariant batch == old(display.events) ==>
                    pending && front == old(front) && back == old(back)
        invariant batch < old(display.events) ==>
                    batch == 0 && !pending && front == old(back) && back == old(front)
      {
        PageFlipHandler();
        batch := batch - 1;
      }
      return true;
    }

    /** What the screen has shown since `before`, when the flip to b was requested. */
    ghost predicate ShownSince(before: seq<Frame>, b: nat)
      requires Swappable() && b < 2
      reads this, display, display.maps
    {
      display.shown == if display.scanout == Some(b) then Note(before, display.View(b)) else before
    }

    /**
     * One pass through the wait loop. It fails exactly if `select` fails, other than by EINTR, or
     * `drmHandleEvent` does; an interruption or somebody else's event only costs a stall.
     */
    method Wake(stalls: nat, ghost before: seq<Frame>) returns (failed: bool, left: nat)
      requires InFlight() && ShownSince(before, back)
      modifies this`front, this`back, this`pending
      modifies display`scanout, display`queued, display`events, display`shown, display`failures
      ensures display.failures == old(display.failures) + if failed then 1 else 0
      ensures Swappable() && ShownSince(before, old(back))
      ensures failed ==> pending
      ensures pending ==> InFlight() && front == old(front) && back == old(back)
      ensures !pending ==> Idle() && front == old(back) && back == old(front)
      ensures left <= stalls && (pending && !failed ==> left < stalls)
    {
      var r;
      r, left := display.Select(stalls);
      if r == SelectFailed {
        return true, left;
      }
      if r == Interrupted {
        return false, left;
      }
      if r == Readable {
        var ok := HandleEvent();
        return !ok, left;
      }
      return false, left;
    }

    /**
     * `wait_page_flip_event`. `stalls` bounds how often the wait is woken without the flip event;
     * after that many wakeups the vblank is due, and the wait ends.
     */
    method WaitPageFlipEvent(stalls: nat) returns (r: Outcome)
      requires InFlight() && ShownSince(display.shown, back)
      modifies this`front, this`back, this`pending
      modifies display`scanout, display`queued, display`events, display`shown, display`failures
      ensures Swappable() && ShownSince(old(display.shown), old(back))
      ensures display.failures == old(display.failures) + if r == Failed then 1 else 0
      ensures r == Done ==> Idle() && front == old(back) && back == old(front)
      ensures r == Failed ==> InFlight() && front == old(front) && back == old(back)
    {
      var left := stalls;
      ghost var f, b, before := front, back, display.shown;
      while pending
        invariant Swappable() && ShownSince(before, b)
        invariant pending ==> InFlight() && front == f && back == b
        invariant display.failures == old(display.failures)
        invariant !pending ==> Idle() && front == b && back == f
        decreases left, pending
      {
        var failed;
        failed, left := Wake(left, before);
        if failed {
          return Failed;
        }
      }
      r := Done;
    }

    /** The memory of both buffers. */
    ghost function Memories(): (r: seq<seq<byte>>)
      requires display.Shape()
      reads this, display, display.maps
      ensures DoubleBuffer(r, display.geos)
    {
      [display.maps[0][..], display.maps[1][..]]
    }

    /** The buffers hold what n frames have drawn into them, and the next one goes into the back buffer. */
    ghost predicate HasDrawn(mems: seq<seq<byte>>, n: nat)
      requires display.Shape() && DoubleBuffer(mems, display.geos)
      reads this, display, display.maps
    {
      && back == n % 2 && front == 1 - back
      && Memories() == DrawnBoth(mems, display.geos, n)
    }

    /** The screen has shown n frames, and a flip still queued is to the next one. */
    ghost predicate HasShown(mems: seq<seq<byte>>, n: nat)
      requires display.Shape() && DoubleBuffer(mems, display.geos)
      reads this, display, display.maps
    {
      && display.Valid() && display.shown == Pictures(mems, display.geos, n)
      && (display.queued.Some? ==> display.View(display.queued.value) == Picture(mems, display.geos, n))
    }

    /** Time passes after n frames: a flip that is still queued may be latched. */
    method LetPass(ghost mems: seq<seq<byte>>, ghost n: nat)
      requires display.Shape() && DoubleBuffer(mems, display.geos) && HasShown(mems, n)
      modifies display`scanout, display`queued, display`events, display`shown
      ensures || display.shown == Pictures(mems, display.geos, n)
              || (old(display.queued).Some? && display.shown == Pictures(mems, display.geos, n + 1))
    {
      PicturesSnoc(mems, display.geos, n);
      display.Pass();
    }

    /** Draw the first frame and put it on the screen. */
    method FirstFrame() returns (ok: bool)
      requires display.Valid() && display.scanout == None && display.queued == None
      requires display.events == 0 && display.shown == [] && front == 0 && back == 1 && !pending
      modifies display`scanout, display`queued, display`events, display`shown, display`failures, display.maps[0]
      ensures display.Shape() && HasShown(old(Memories()), if ok then 1 else 0)
      ensures ok ==> Idle() && HasDrawn(old(Memories()), 1)
      ensures !ok ==> display.queued == None
      ensures display.failures == old(display.failures) + if ok then 0 else 1
    {
      ghost var mems := Memories();
      display.FillColor(front, ColorOf(0));
      ok := display.SetCrtc(front);
      NothingDrawn(mems, display.geos);
      NextDrawn(mems, display.geos, 0, 0);
      PicturesSnoc(mems, display.geos, 0);
    }

    /** One iteration of the frame loop: draw behind the screen, request the flip, wait for it. */
    method ShowFrame(color: uint32) returns (r: FrameResult)
      requires Idle()
      modifies this`front, this`back, this`pending
      modifies display`scanout, display`queued, display`events, display`shown, display`failures
      modifies display.maps[0], display.maps[1]
      ensures Swappable()
      ensures var g, mem := display.geos[old(back)], old(Memories()[back]);
              StoresFit(g, |mem|) && Memories() == old(Memories())[old(back) := FillRows(mem, g, g.height, color)]
      ensures display.failures == old(display.failures) + if r == Flipped then 0 else 1
      ensures r == Flipped ==> Idle() && front == old(back) && back == old(front)
      ensures r != Flipped ==> pending && front == old(front) && back == old(back)
      ensures r == Refused ==> display.scanout == Some(front) && display.queued == None && display.events == 0
      ensures r == NotLatched || r == LatchedUnread ==> InFlight()
      ensures r == LatchedUnread ==> display.queued == None
      ensures r == NotLatched ==> display.queued == Some(back)
      ensures display.shown == if r == Refused || r == NotLatched then old(display.shown)
              else Note(old(display.shown), display.View(old(back)))
    {
      display.FillColor(back, color);
      pending := true;
      var accepted := display.RequestFlip(back);
      if !accepted {
        return Refused;
      }
      var stalls: nat := *;
      var waited := WaitPageFlipEvent(stalls);
      if waited == Failed {
        return if display.scanout == Some(back) then LatchedUnread else NotLatched;
      }
      return Flipped;
    }

    /** Frame i of the loop; `complete` counts the frames shown after it. */
    method NextFrame(i: nat, ghost mems: seq<seq<byte>>) returns (ok: bool, complete: nat)
      requires Idle() && DoubleBuffer(mems, display.geos) && HasDrawn(mems, i) && HasShown(mems, i)
      modifies this`front, this`back, this`pending
      modifies display`scanout, display`queued, display`events, display`shown, display`failures
      modifies display.maps[0], display.maps[1]
      ensures display.Shape() && HasShown(mems, complete)
      ensures ok ==> Idle() && complete == i + 1 && HasDrawn(mems, complete)
      ensures complete == i || (complete == i + 1 && display.queued == None)
      ensures display.failures == old(display.failures) + if ok then 0 else 1
    {
      NextDrawn(mems, display.geos, i, back);
      PicturesSnoc(mems, display.geos, i);
      OtherBuffer(i);
      var r := ShowFrame(ColorOf(i));
      return r == Flipped, if r == Flipped || r == LatchedUnread then i + 1 else i;
    }

    /**
     * The frame loop of `main` for n frames. Whatever the vblanks do between its steps, the screen
     * shows the pictures of the frames only, each once, in order. The run succeeds, with all n frames,
     * exactly if none of its calls fails, however often a wait is interrupted; a failure cuts it short. A
     * flip that a failed wait leaves queued is to the next one. Unless row offsets wrap, the pictures are
     * complete frames.
     */
    method RunFrames(n: nat) returns (ok: bool, complete: nat)
      requires n > 0 && display.Valid() && display.scanout == None && display.queued == None
      requires display.events == 0 && display.shown == [] && front == 0 && back == 1 && !pending
      modifies this`front, this`back, this`pending
      modifies display`scanout, display`queued, display`events, display`shown, display`failures
      modifies display.maps[0], display.maps[1]
      ensures ok <==> display.failures == old(display.failures)
      ensures complete <= n && (ok ==> complete == n && Idle())
      ensures display.Shape() && HasShown(old(Memories()), complete)
      ensures display.queued.Some? ==> !ok && 0 < complete < n
      ensures NoWrap(display.geos[0]) && NoWrap(display.geos[1]) ==>
                display.shown == Slides(complete, display.geos[0].width, display.geos[0].height)
    {
      ghost var mems := Memories();
      ok := FirstFrame();
      complete := if ok then 1 else 0;
      while ok && complete < n
        invariant display.Shape() && HasShown(mems, complete) && complete <= n
        invariant ok ==> Idle() && HasDrawn(mems, complete) && complete > 0
        invariant display.failures == old(display.failures) + if ok then 0 else 1
        invariant display.queued.Some? ==> !ok && 0 < complete < n
        decreases ok, n - complete
      {
        ok, complete := NextFrame(complete, mems);
      }
      if NoWrap(display.geos[0]) && NoWrap(display.geos[1]) {
        PicturesAreSlides(mems, display.geos, complete);
      }
    }
  }
}
