/** The whole atomic modeset program: search, buffer, request, and the three exits its failures share. */
module AtomicProgram {
  import opened Words
  import opened FillColor
  import opened DumbBuffers
  import opened PlaneSearch
  import opened AtomicRequest

  const GREEN: uint32 := 0x0000ff00

  /**
   * What the driver answers: the lists, the property tables by object, pitch and size of a buffer, and
   * whether there is memory for a request and the commit is accepted.
   */
  datatype Driver = Driver(
    connectors: Option<seq<Option<Connector>>>, crtcs: Option<seq<uint32>>, planes: Option<seq<Option<Plane>>>,
    tables: (Kind, uint32) -> Option<seq<Listed>>, pitchOf: Mode -> uint32, sizeOf: Mode -> nat,
    enough: bool, accepts: bool)

  /** The driver's lists are short enough for the C shift, and its buffers hold whole rows. */
  ghost predicate DriverContract(driver: Driver) {
    && (driver.crtcs.Some? ==> |driver.crtcs.value| < 32)
    && forall m: Mode :: HoldsFrame(GeometryOf(driver, m), driver.sizeOf(m))
  }

  function GeometryOf(driver: Driver, m: Mode): Geometry {
    Geometry(m.hdisplay, m.vdisplay, driver.pitchOf(m))
  }

  function DeviceOf(driver: Driver, p: Pipeline): Device {
    Device(driver.tables(OnConnector, p.connectorId), driver.tables(OnCrtc, p.crtcId),
           driver.tables(OnPlane, p.planeId))
  }

  /** How `main` ended. */
  datatype Ending =
    | NoConnector | NoPlane | NoBuffer(stopped: CreateResult) | NoBlob | NoRequest | CommitFailed | Committed

  /** The objects the searches have found. */
  datatype Target = Target(connectorId: uint32, crtcId: uint32, planeId: uint32, mode: Mode)

  // ------------------------------------------------------------------ the searches

  /** The first usable connector has an encoder that can be read. */
  predicate HasConnector(driver: Driver) {
    driver.connectors.Some? &&
    var cs := driver.connectors.value;
    var i := FirstUsable(cs);
    i < |cs| && cs[i].value.encoderId != 0 && cs[i].value.encoder.Some?
  }

  function ChosenConnector(driver: Driver): Connector
    requires HasConnector(driver)
  {
    driver.connectors.value[FirstUsable(driver.connectors.value)].value
  }

  /** Plane k is the one `find_primary_plane` returns. */
  ghost predicate PlaneChosen(driver: Driver, k: nat)
    requires DriverContract(driver) && HasConnector(driver)
  {
    driver.crtcs.Some? && driver.planes.Some? &&
    PlaneFound(driver.crtcs.value, ChosenConnector(driver).encoder.value.crtcId, driver.planes.value, k)
  }

  ghost predicate Chosen(driver: Driver, t: Target)
    requires DriverContract(driver)
  {
    && HasConnector(driver)
    && var c := ChosenConnector(driver);
       && t.connectorId == c.id && t.mode == c.modes[0] && t.crtcId == c.encoder.value.crtcId
       && exists k: nat :: PlaneChosen(driver, k) && driver.planes.value[k].value.id == t.planeId
  }

  /** `find_connector_crtc` and `find_primary_plane`; `ending` is None if both succeed. */
  method FindTarget(libdrm: Libdrm, driver: Driver) returns (ending: Option<Ending>, t: Target)
    requires DriverContract(driver)
    modifies libdrm
    ensures libdrm.held == old(libdrm.held)
    ensures ending == None ==> Chosen(driver, t)
    ensures ending != None ==>
              ending.value == if HasConnector(driver) then NoPlane else NoConnector
    ensures ending == Some(NoPlane) ==> forall k: nat :: !PlaneChosen(driver, k)
  {
    t := Target(0, 0, 0, Mode(0, 0));
    var crtcId, picked := FindConnectorCrtc(libdrm, driver.connectors);
    if crtcId == None {
      return Some(NoConnector), t;
    }
    var planeId := FindPrimaryPlane(libdrm, driver.crtcs, driver.planes, crtcId.value);
    if planeId == None {
      return Some(NoPlane), t;
    }
    return None, Target(picked.value.0, crtcId.value, planeId.value, picked.value.1);
  }

  // ------------------------------------------------------------------ the picture

  method FillScanline(pixels: array<byte>, row: nat, width: nat, color: uint32)
    requires row + 4 * width <= pixels.Length
    modifies pixels
    ensures pixels[..] == FillRow(old(pixels[..]), row, width, color)
  {
    var x := 0;
    while x < width
      invariant x <= width && pixels[..] == FillRow(old(pixels[..]), row, x, color)
    {
      ghost var before := pixels[..];
      var at := row + 4 * x;
      pixels[at], pixels[at + 1] := ColorByte(color, 0), ColorByte(color, 1);
      pixels[at + 2], pixels[at + 3] := ColorByte(color, 2), ColorByte(color, 3);
      assert pixels[..] == StorePixel(before, at, color);
      x := x + 1;
    }
  }

  method FillScanlines(pixels: array<byte>, g: Geometry, color: uint32)
    requires StoresFit(g, pixels.Length)
    modifies pixels
    ensures pixels[..] == FillRows(old(pixels[..]), g, g.height, color)
  {
    var y := 0;
    while y < g.height
      invariant y <= g.height && pixels[..] == FillRows(old(pixels[..]), g, y, color)
    {
      FillScanline(pixels, RowOffset(g, y), g.width, color);
      y := y + 1;
    }
  }

  /** `fill_color`: without a wrap the frame takes the colour and nothing else changes. */
  method FillPixels(pixels: array<byte>, g: Geometry, color: uint32)
    requires HoldsFrame(g, pixels.Length)
    modifies pixels
    ensures StoresFit(g, pixels.Length)
    ensures pixels[..] == FillRows(old(pixels[..]), g, g.height, color)
    ensures NoWrap(g) ==> Visible(pixels[..], g) == Uniform(g.width, g.height, color)
  {
    StoresStayInside(g, pixels.Length);
    if NoWrap(g) {
      FillPaintsFrame(pixels[..], g, color);
    }
    FillScanlines(pixels, g, color);
  }

  // ------------------------------------------------------------------ the request

  /** What is handed to `drmModeAtomicCommit`. */
  datatype Submission = Submission(p: Pipeline, items: seq<Assignment>, pixels: seq<byte>)

  /** The four bytes of a pixel in memory: no blue, full green, no red. */
  predicate IsGreen(pixels: seq<byte>, at: nat) {
    at + 4 <= |pixels| && pixels[at..at + 4] == [0, 0xff, 0, 0]
  }

  predicate IsGreenRow(pixels: seq<byte>, width: nat, start: nat) {
    forall x: nat | x < width :: IsGreen(pixels, start + 4 * x)
  }

  predicate IsGreenFrame(pixels: seq<byte>, width: nat, height: nat, pitch: nat) {
    forall y: nat | y < height :: IsGreenRow(pixels, width, y * pitch)
  }

  lemma FrameIsGreen(pixels: seq<byte>, g: Geometry)
    requires HoldsFrame(g, |pixels|)
    requires NoWrap(g) ==> Visible(pixels, g) == Uniform(g.width, g.height, GREEN)
    ensures NoWrap(g) ==> IsGreenFrame(pixels, g.width, g.height, g.pitch)
  {
    if NoWrap(g) {
      assert PixelBytes(GREEN) == [0, 0xff, 0, 0];
      forall y: nat | y < g.height ensures IsGreenRow(pixels, g.width, y * g.pitch) {
        forall x: nat | x < g.width ensures IsGreen(pixels, y * g.pitch + 4 * x) {
          UniformPixel(pixels, g, GREEN, y, x, y * g.pitch + 4 * x);
        }
      }
    }
  }

  /**
   * The submission is for the objects found: it grants the thirteen wishes, so that on a complete device
   * it routes the pipeline; and the framebuffer is green, unless its row offsets wrap.
   */
  ghost predicate AsWished(driver: Driver, t: Target, s: Submission)
    requires DriverContract(driver)
  {
    var p, d := s.p, DeviceOf(driver, s.p);
    && Target(p.connectorId, p.crtcId, p.planeId, p.mode) == t
    && s.items == GrantAll(d, p, Wishes(p))
    && (RequestReady(d, p) ==> Routed(d, p, s.items) && ScaledOnlyAbove(d, p, s.items))
    && |s.pixels| == driver.sizeOf(t.mode)
    && (NoWrap(GeometryOf(driver, t.mode)) ==>
          IsGreenFrame(s.pixels, t.mode.hdisplay, t.mode.vdisplay, driver.pitchOf(t.mode)))
  }

  ghost predicate RequestReady(d: Device, p: Pipeline) {
    DistinctObjects(p) && Complete(d, p) &&
    Identified(d.connector) && Identified(d.crtc) && Identified(d.plane)
  }

  /** From `load_props` to the end of the request: it is freed on every path. */
  method CommitRequest(libdrm: Libdrm, d: Device, p: Pipeline, enough: bool, accepts: bool)
    returns (ending: Ending, ghost items: seq<Assignment>)
    modifies libdrm
    ensures libdrm.held == old(libdrm.held)
    ensures ending == if !enough then NoRequest else if accepts then Committed else CommitFailed
    ensures ending != NoRequest ==> items == GrantAll(d, p, Wishes(p))
    ensures ending != NoRequest && RequestReady(d, p) ==> Routed(d, p, items) && ScaledOnlyAbove(d, p, items)
  {
    var req := AssembleRequest(libdrm, d, p, enough);
    if req == null {
      return NoRequest, [];
    }
    items := req.items;
    if RequestReady(d, p) {
      RequestRoutesPipeline(d, p);
    }
    libdrm.Free(req);
    return if accepts then Committed else CommitFailed, items;
  }

  /** From `fill_color` to `err_blob`: the blob is destroyed on every path. */
  method ShowBuffer(libdrm: Libdrm, drm: Drm, driver: Driver, t: Target, fbId: uint32)
    returns (ending: Ending, ghost s: Submission, ghost blobs: seq<Resource>)
    requires DriverContract(driver)
    modifies libdrm, drm
    ensures libdrm.held == old(libdrm.held) && drm.live == old(drm.live)
    ensures ending == NoBlob <==> drm.failures != old(drm.failures)
    ensures ending != NoBlob ==>
              ending == if !driver.enough then NoRequest else if driver.accepts then Committed else CommitFailed
    ensures ending in {CommitFailed, Committed} ==>
              AsWished(driver, t, s) && s.p.fbId == fbId && Blob(s.p.blobId) in drm.acquired
    ensures drm.acquired == old(drm.acquired) + blobs && drm.released == old(drm.released) + blobs
  {
    var pixels := new byte[driver.sizeOf(t.mode)];
    FillPixels(pixels, GeometryOf(driver, t.mode), GREEN);
    var ok, blob := drm.CreateBlob();
    var p := Pipeline(t.connectorId, t.crtcId, t.planeId, fbId, blob, t.mode);
    s := Submission(p, [], pixels[..]);
    FrameIsGreen(pixels[..], GeometryOf(driver, t.mode));
    if !ok {
      return NoBlob, s, [];
    }
    blobs := [Blob(blob)];
    ghost var items;
    ending, items := CommitRequest(libdrm, DeviceOf(driver, p), p, driver.enough, driver.accepts);
    s := s.(items := items);
    if blob != 0 {
      drm.Release(Blob(blob));
    }
  }

  // ------------------------------------------------------------------ main

  /** The part of `main` after the searches, from `create_dumb_buffer` on. */
  method UseTarget(libdrm: Libdrm, drm: Drm, driver: Driver, t: Target)
    returns (ending: Ending, ghost s: Submission)
    requires DriverContract(driver)
    requires drm.live == {} && drm.acquired == [] && drm.released == []
    modifies libdrm, drm
    ensures libdrm.held == old(libdrm.held)
    ensures ending != NoConnector && ending != NoPlane && ending != NoBuffer(Created)
    ensures ending.NoBuffer? || ending == NoBlob <==> drm.failures != old(drm.failures)
    ensures ending.NoBuffer? || ending == NoBlob ||
            ending == if !driver.enough then NoRequest else if driver.accepts then Committed else CommitFailed
    ensures Released(drm, ending)
    ensures ending in {CommitFailed, Committed} ==>
              AsWished(driver, t, s) && Framebuffer(s.p.fbId) in drm.acquired && Blob(s.p.blobId) in drm.acquired
  {
    var stopped, buf := CreateDumbBuffer(drm);
    if stopped != Created {
      OwnedParts(buf);
      return NoBuffer(stopped), Submission(Pipeline(0, 0, 0, 0, 0, t.mode), [], []);
    }
    ghost var blobs;
    ending, s, blobs := ShowBuffer(libdrm, drm, driver, t, buf.fbId);
    SameParts(buf);
    ReleaseParts(drm, buf);
    AllReleased(buf, blobs);
  }

  lemma AllReleased(buf: DumbBuffer, blobs: seq<Resource>)
    ensures multiset([] + blobs + Releases(buf)) == multiset([] + Acquisitions(buf) + blobs)
  {
    SameParts(buf);
  }

  /** What the device still holds before `close`, for every ending. */
  ghost predicate Released(drm: Drm, ending: Ending)
    reads drm
  {
    && (drm.live == {} <==> (ending.NoBuffer? ==> ending.stopped == CreateDumbFailed))
    && (ending == NoBuffer(AddFbFailed) ==> |drm.live| == 1)
    && (ending == NoBuffer(MapDumbFailed) || ending == NoBuffer(MmapFailed) ==> |drm.live| == 2)
    && (drm.live == {} ==> multiset(drm.released) == multiset(drm.acquired))
  }

  /**
   * `main`. Whatever fails, the request and all other objects of libdrm are freed. A creation that stops
   * after CREATE_DUMB jumps past `destroy_dumb_buffer`, so the handle, and the framebuffer if it came
   * that far, are left for the closing of the device; otherwise everything acquired from the device is
   * released explicitly, exactly once.
   */
  method RunAtomic(libdrm: Libdrm, drm: Drm, driver: Driver)
    returns (ending: Ending, ghost t: Target, ghost s: Submission)
    requires DriverContract(driver)
    requires drm.live == {} && drm.acquired == [] && drm.released == []
    modifies libdrm, drm
    ensures libdrm.held == old(libdrm.held)
    ensures ending == NoConnector <==> !HasConnector(driver)
    ensures ending == NoPlane <==> HasConnector(driver) && forall k: nat :: !PlaneChosen(driver, k)
    ensures ending != NoBuffer(Created) && Released(drm, ending)
    ensures ending.NoBuffer? || ending == NoBlob <==> drm.failures != old(drm.failures)
    ensures ending in {NoConnector, NoPlane, NoBlob} || ending.NoBuffer? ||
            ending == if !driver.enough then NoRequest else if driver.accepts then Committed else CommitFailed
    ensures ending in {CommitFailed, Committed} ==>
              && Chosen(driver, t) && AsWished(driver, t, s)
              && Framebuffer(s.p.fbId) in drm.acquired && Blob(s.p.blobId) in drm.acquired
  {
    var found, target := FindTarget(libdrm, driver);
    t := target;
    if found != None {
      return found.value, t, Submission(Pipeline(0, 0, 0, 0, 0, t.mode), [], []);
    }
    ending, s := UseTarget(libdrm, drm, driver, target);
  }
}
