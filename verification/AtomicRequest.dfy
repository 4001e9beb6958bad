/** The atomic request of the modeset example: thirteen assignments assembled from name lookups. */
module AtomicRequest {
  import opened Words
  import opened PlaneSearch

  /** The answers to the property queries on the three objects, the same for every query. */
  datatype Device = Device(connector: Option<seq<Listed>>, crtc: Option<seq<Listed>>, plane: Option<seq<Listed>>)

  datatype Kind = OnConnector | OnCrtc | OnPlane

  /** The objects to connect: connector, CRTC, plane, framebuffer, and the blob that holds the mode. */
  datatype Pipeline = Pipeline(
    connectorId: uint32, crtcId: uint32, planeId: uint32, fbId: uint32, blobId: uint32, mode: Mode)

  /** One `drmModeAtomicAddProperty`; the value is a uint64. */
  datatype Assignment = Assignment(target: uint32, property: uint32, value: int)

  /** An assignment as the programmer thinks of it. */
  datatype Wish = Wish(kind: Kind, name: string, value: int)

  function TableOf(d: Device, kind: Kind): Option<seq<Listed>> {
    match kind
    case OnConnector => d.connector
    case OnCrtc => d.crtc
    case OnPlane => d.plane
  }

  function ObjectOf(p: Pipeline, kind: Kind): uint32 {
    match kind
    case OnConnector => p.connectorId
    case OnCrtc => p.crtcId
    case OnPlane => p.planeId
  }

  // ------------------------------------------------------------------ 16.16 fixed point

  /** `hdisplay << 16`: the 16-bit field is shifted as an int and then converted to uint64. */
  function ShiftLeft16(x: uint16): (r: int)
    ensures 0 <= r < TWO_64
  {
    var v := Int32(x * 0x1_0000);
    if v < 0 then v + TWO_64 else v
  }

  /** The shift is the 16.16 form of x exactly when bit 15 of x is clear; otherwise the sign is extended. */
  lemma ShiftIsFixedPointIff(x: uint16)
    ensures ShiftLeft16(x) == x * 0x1_0000 <==> x < 0x8000
    ensures x < 0x8000 ==> ShiftLeft16(x) / 0x1_0000 == x && ShiftLeft16(x) % 0x1_0000 == 0
    ensures x >= 0x8000 ==> ShiftLeft16(x) / 0x1_0000 >= 0xFFFF_FFFF_8000
  {
  }

  // ------------------------------------------------------------------ what is asked for

  /** connector -> CRTC -> plane -> framebuffer. */
  function RouteWishes(p: Pipeline): seq<Wish> {
    [ Wish(OnConnector, "CRTC_ID", p.crtcId),
      Wish(OnCrtc, "MODE_ID", p.blobId), Wish(OnCrtc, "ACTIVE", 1),
      Wish(OnPlane, "FB_ID", p.fbId), Wish(OnPlane, "CRTC_ID", p.crtcId) ]
  }

  /** The whole framebuffer, in 16.16 fixed point. */
  function SourceWishes(p: Pipeline): seq<Wish>
  {
    [ Wish(OnPlane, "SRC_X", 0), Wish(OnPlane, "SRC_Y", 0),
      Wish(OnPlane, "SRC_W", ShiftLeft16(p.mode.hdisplay)), Wish(OnPlane, "SRC_H", ShiftLeft16(p.mode.vdisplay)) ]
  }

  /** The whole CRTC, in pixels. */
  function TargetWishes(p: Pipeline): seq<Wish> {
    [ Wish(OnPlane, "CRTC_X", 0), Wish(OnPlane, "CRTC_Y", 0),
      Wish(OnPlane, "CRTC_W", p.mode.hdisplay), Wish(OnPlane, "CRTC_H", p.mode.vdisplay) ]
  }

  function Wishes(p: Pipeline): (r: seq<Wish>)
    ensures |r| == 13
  {
    RouteWishes(p) + SourceWishes(p) + TargetWishes(p)
  }

  /** On modes below 32768 the source rectangle decodes to the CRTC rectangle, and only on those. */
  lemma SourceIsTargetIff(p: Pipeline)
    ensures (forall i | 0 <= i < 4 :: SourceWishes(p)[i].value == TargetWishes(p)[i].value * 0x1_0000)
            <==> p.mode.hdisplay < 0x8000 && p.mode.vdisplay < 0x8000
  {
    ShiftIsFixedPointIff(p.mode.hdisplay);
    ShiftIsFixedPointIff(p.mode.vdisplay);
    var source, target := SourceWishes(p), TargetWishes(p);
    assert source[2].value == ShiftLeft16(target[2].value) && source[3].value == ShiftLeft16(target[3].value);
  }

  function Grant(d: Device, p: Pipeline, w: Wish): Assignment {
    Assignment(ObjectOf(p, w.kind), PropId(TableOf(d, w.kind), w.name), w.value)
  }

  function GrantAll(d: Device, p: Pipeline, ws: seq<Wish>): seq<Assignment> {
    seq(|ws|, i requires 0 <= i < |ws| => Grant(d, p, ws[i]))
  }

  // ------------------------------------------------------------------ the program

  /** `struct object_props`. */
  class ObjectProps {
    var crtcId: uint32
    var modeId: uint32
    var active: uint32
    var fbId: uint32
    var srcX: uint32
    var srcY: uint32
    var srcW: uint32
    var srcH: uint32
    var crtcX: uint32
    var crtcY: uint32
    var crtcW: uint32
    var crtcH: uint32

    constructor ()
      ensures crtcId == modeId == active == fbId == srcX == srcY == 0
      ensures srcW == srcH == crtcX == crtcY == crtcW == crtcH == 0
    {
      crtcId, modeId, active, fbId, srcX, srcY := 0, 0, 0, 0, 0, 0;
      srcW, srcH, crtcX, crtcY, crtcW, crtcH := 0, 0, 0, 0, 0, 0;
    }
  }

  /** `load_props`: the plane's CRTC_ID replaces the connector's. */
  method LoadProps(drm: Libdrm, d: Device, p: ObjectProps)
    modifies drm, p
    ensures drm.held == old(drm.held)
    ensures Loaded(d, p)
  {
    p.crtcId := GetPropId(drm, d.connector, "CRTC_ID");
    p.modeId := GetPropId(drm, d.crtc, "MODE_ID");
    p.active := GetPropId(drm, d.crtc, "ACTIVE");
    p.fbId := GetPropId(drm, d.plane, "FB_ID");
    p.crtcId := GetPropId(drm, d.plane, "CRTC_ID");
    LoadSourceProps(drm, d, p);
    LoadTargetProps(drm, d, p);
  }

  method LoadSourceProps(drm: Libdrm, d: Device, p: ObjectProps)
    modifies drm, p`srcX, p`srcY, p`srcW, p`srcH
    ensures drm.held == old(drm.held)
    ensures SourceLoaded(d, p)
  {
    p.srcX := GetPropId(drm, d.plane, "SRC_X");
    p.srcY := GetPropId(drm, d.plane, "SRC_Y");
    p.srcW := GetPropId(drm, d.plane, "SRC_W");
    p.srcH := GetPropId(drm, d.plane, "SRC_H");
  }

  method LoadTargetProps(drm: Libdrm, d: Device, p: ObjectProps)
    modifies drm, p`crtcX, p`crtcY, p`crtcW, p`crtcH
    ensures drm.held == old(drm.held)
    ensures TargetLoaded(d, p)
  {
    p.crtcX := GetPropId(drm, d.plane, "CRTC_X");
    p.crtcY := GetPropId(drm, d.plane, "CRTC_Y");
    p.crtcW := GetPropId(drm, d.plane, "CRTC_W");
    p.crtcH := GetPropId(drm, d.plane, "CRTC_H");
  }

  /** A request under construction. */
  class AtomicReq {
    var items: seq<Assignment>

    constructor ()
      ensures items == []
    {
      items := [];
    }

    method Add(target: uint32, property: uint32, value: int)
      modifies this
      ensures items == old(items) + [Assignment(target, property, value)]
    {
      items := items + [Assignment(target, property, value)];
    }
  }

  /** What `load_props` has filled in. */
  ghost predicate Loaded(d: Device, p: ObjectProps)
    reads p
  {
    && p.modeId == PropId(d.crtc, "MODE_ID") && p.active == PropId(d.crtc, "ACTIVE")
    && p.fbId == PropId(d.plane, "FB_ID") && p.crtcId == PropId(d.plane, "CRTC_ID")
    && SourceLoaded(d, p) && TargetLoaded(d, p)
  }

  ghost predicate SourceLoaded(d: Device, p: ObjectProps)
    reads p
  {
    && p.srcX == PropId(d.plane, "SRC_X") && p.srcY == PropId(d.plane, "SRC_Y")
    && p.srcW == PropId(d.plane, "SRC_W") && p.srcH == PropId(d.plane, "SRC_H")
  }

  ghost predicate TargetLoaded(d: Device, p: ObjectProps)
    reads p
  {
    && p.crtcX == PropId(d.plane, "CRTC_X") && p.crtcY == PropId(d.plane, "CRTC_Y")
    && p.crtcW == PropId(d.plane, "CRTC_W") && p.crtcH == PropId(d.plane, "CRTC_H")
  }

  method AddRoute(drm: Libdrm, d: Device, p: Pipeline, props: ObjectProps, req: AtomicReq)
    requires Loaded(d, props)
    modifies drm, req
    ensures drm.held == old(drm.held)
    ensures req.items == old(req.items) + GrantAll(d, p, RouteWishes(p))
  {
    var route := GetPropId(drm, d.connector, "CRTC_ID");
    req.Add(p.connectorId, route, p.crtcId);
    req.Add(p.crtcId, props.modeId, p.blobId);
    req.Add(p.crtcId, props.active, 1);
    req.Add(p.planeId, props.fbId, p.fbId);
    req.Add(p.planeId, props.crtcId, p.crtcId);
  }

  method AddSource(d: Device, p: Pipeline, props: ObjectProps, req: AtomicReq)
    requires Loaded(d, props)
    modifies req
    ensures req.items == old(req.items) + GrantAll(d, p, SourceWishes(p))
  {
    req.Add(p.planeId, props.srcX, 0);
    req.Add(p.planeId, props.srcY, 0);
    req.Add(p.planeId, props.srcW, ShiftLeft16(p.mode.hdisplay));
    req.Add(p.planeId, props.srcH, ShiftLeft16(p.mode.vdisplay));
  }

  method AddTarget(d: Device, p: Pipeline, props: ObjectProps, req: AtomicReq)
    requires Loaded(d, props)
    modifies req
    ensures req.items == old(req.items) + GrantAll(d, p, TargetWishes(p))
  {
    req.Add(p.planeId, props.crtcX, 0);
    req.Add(p.planeId, props.crtcY, 0);
    req.Add(p.planeId, props.crtcW, p.mode.hdisplay);
    req.Add(p.planeId, props.crtcH, p.mode.vdisplay);
  }

  /** `drmModeAtomicAlloc`: NULL without enough memory, or a new request the caller has to free. */
  method AllocRequest(drm: Libdrm, enough: bool) returns (req: AtomicReq?)
    modifies drm
    ensures req != null <==> enough
    ensures req == null ==> drm.held == old(drm.held)
    ensures req != null ==> fresh(req) && req.items == [] && drm.held == old(drm.held) + {req}
  {
    req := null;
    if enough {
      req := new AtomicReq();
      drm.held := drm.held + {req};
    }
  }

  /** The assembly in `main`: every wish becomes the assignment to the property of that name on its object. */
  method AssembleRequest(drm: Libdrm, d: Device, p: Pipeline, enough: bool) returns (req: AtomicReq?)
    modifies drm
    ensures req != null <==> enough
    ensures req == null ==> drm.held == old(drm.held)
    ensures req != null ==> fresh(req) && drm.held == old(drm.held) + {req}
    ensures req != null ==> req.items == GrantAll(d, p, Wishes(p))
  {
    var props := new ObjectProps();
    LoadProps(drm, d, props);
    req := AllocRequest(drm, enough);
    if req != null {
      AddRoute(drm, d, p, props, req);
      AddSource(d, p, props, req);
      AddTarget(d, p, props, req);
    }
  }

  // ------------------------------------------------------------------ what the request means

  /** Ids identify the properties of an object, and answers carry the id that was asked for. */
  ghost predicate Identified(lookup: Option<seq<Listed>>) {
    lookup.Some? ==>
      var l := lookup.value;
      && (forall k | 0 <= k < |l| && l[k].answer.Some? :: l[k].answer.value.id == l[k].id)
      && (forall k, m | 0 <= k < m < |l| :: l[k].id != l[m].id)
  }

  lemma DifferentNamesDifferentIds(lookup: Option<seq<Listed>>, a: string, b: string)
    requires Identified(lookup) && PropId(lookup, a) != 0 && PropId(lookup, b) != 0
    ensures PropId(lookup, a) == PropId(lookup, b) <==> a == b
  {
    FirstNamedIsSome(lookup.value, a);
    FirstNamedIsSome(lookup.value, b);
  }

  predicate Found(d: Device, w: Wish) {
    PropId(TableOf(d, w.kind), w.name) != 0
  }

  /** Every property the program names exists and can be read. */
  ghost predicate Complete(d: Device, p: Pipeline)
  {
    forall j: nat | j < 13 :: Found(d, Wishes(p)[j])
  }

  /** The assignment writes the property that is called `name` on the object. */
  ghost predicate Writes(d: Device, p: Pipeline, a: Assignment, kind: Kind, name: string) {
    a.target == ObjectOf(p, kind) && a.property != 0 && a.property == PropId(TableOf(d, kind), name)
  }

  /** On a complete device a granted wish writes the property of that wish and no other. */
  lemma GrantWritesOnly(d: Device, p: Pipeline, v: Wish, w: Wish)
    requires DistinctObjects(p) && Identified(TableOf(d, w.kind))
    requires Found(d, v) && Found(d, w)
    ensures Writes(d, p, Grant(d, p, v), w.kind, w.name) <==> v.kind == w.kind && v.name == w.name
  {
    if v.kind == w.kind {
      DifferentNamesDifferentIds(TableOf(d, v.kind), v.name, w.name);
    }
  }

  predicate DistinctObjects(p: Pipeline) {
    p.connectorId != p.crtcId && p.crtcId != p.planeId && p.connectorId != p.planeId
  }

  /**
   * On a complete device the request is exactly the thirteen wishes: an assignment writes a wished-for
   * property if and only if it grants that wish, so no two write the same property of the same object.
   */
  lemma RequestMeansWishes(d: Device, p: Pipeline, i: nat, j: nat)
    requires DistinctObjects(p) && Complete(d, p)
    requires Identified(d.connector) && Identified(d.crtc) && Identified(d.plane)
    requires i < 13 && j < 13
    ensures var items, w := GrantAll(d, p, Wishes(p)), Wishes(p)[j];
            && (Writes(d, p, items[i], w.kind, w.name) <==> i == j)
            && items[j].value == w.value
            && (i != j ==> (items[i].target, items[i].property) != (items[j].target, items[j].property))
  {
    var v, w := Wishes(p)[i], Wishes(p)[j];
    GrantWritesOnly(d, p, v, w);
    GrantWritesOnly(d, p, w, w);
    if v.kind == w.kind && v.name == w.name {
      WishesDiffer(p, i, j);
    }
  }

  lemma WishesDiffer(p: Pipeline, i: nat, j: nat)
    requires i < 13 && j < 13
    requires Wishes(p)[i].kind == Wishes(p)[j].kind && Wishes(p)[i].name == Wishes(p)[j].name
    ensures i == j
  {
  }

  /** The value a request gives to a named property; the last assignment to it counts. */
  ghost function ValueOf(d: Device, p: Pipeline, items: seq<Assignment>, kind: Kind, name: string): Option<int> {
    if items == [] then None
    else if Writes(d, p, items[|items| - 1], kind, name) then Some(items[|items| - 1].value)
    else ValueOf(d, p, items[..|items| - 1], kind, name)
  }

  lemma {:induction false} OnlyWriterDecides(d: Device, p: Pipeline, items: seq<Assignment>, w: Wish, j: nat)
    requires j < |items|
    requires forall i | 0 <= i < |items| :: Writes(d, p, items[i], w.kind, w.name) <==> i == j
    ensures ValueOf(d, p, items, w.kind, w.name) == Some(items[j].value)
  {
    if j < |items| - 1 {
      OnlyWriterDecides(d, p, items[..|items| - 1], w, j);
    }
  }

  /** On a complete device every wish comes true. */
  lemma WishComesTrue(d: Device, p: Pipeline, j: nat, w: Wish)
    requires DistinctObjects(p) && Complete(d, p)
    requires Identified(d.connector) && Identified(d.crtc) && Identified(d.plane)
    requires j < 13 && w == Wishes(p)[j]
    ensures ValueOf(d, p, GrantAll(d, p, Wishes(p)), w.kind, w.name) == Some(w.value)
  {
    var items := GrantAll(d, p, Wishes(p));
    forall i | 0 <= i < |items| ensures Writes(d, p, items[i], w.kind, w.name) <==> i == j {
      RequestMeansWishes(d, p, i, j);
    }
    RequestMeansWishes(d, p, j, j);
    OnlyWriterDecides(d, p, items, w, j);
  }

  /** The request gives every one of the wished-for properties its value. */
  ghost predicate Gives(d: Device, p: Pipeline, wishes: seq<Wish>)
  {
    forall j | 0 <= j < |wishes| ::
      ValueOf(d, p, GrantAll(d, p, Wishes(p)), wishes[j].kind, wishes[j].name) == Some(wishes[j].value)
  }

  lemma AllWishesComeTrue(d: Device, p: Pipeline)
    requires DistinctObjects(p) && Complete(d, p)
    requires Identified(d.connector) && Identified(d.crtc) && Identified(d.plane)
    ensures Gives(d, p, RouteWishes(p)) && Gives(d, p, SourceWishes(p)) && Gives(d, p, TargetWishes(p))
  {
    forall j: nat | j < 13
      ensures ValueOf(d, p, GrantAll(d, p, Wishes(p)), Wishes(p)[j].kind, Wishes(p)[j].name) ==
              Some(Wishes(p)[j].value)
    {
      WishComesTrue(d, p, j, Wishes(p)[j]);
    }
    assert forall j | 0 <= j < 5 :: RouteWishes(p)[j] == Wishes(p)[j];
    assert forall j | 0 <= j < 4 :: SourceWishes(p)[j] == Wishes(p)[5 + j];
    assert forall j | 0 <= j < 4 :: TargetWishes(p)[j] == Wishes(p)[9 + j];
  }

  /**
   * Read property by property, the request puts the framebuffer on the plane, and the plane and the
   * connector on the same, active CRTC that has the mode.
   */
  ghost predicate Routed(d: Device, p: Pipeline, items: seq<Assignment>) {
    && ValueOf(d, p, items, OnConnector, "CRTC_ID") == ValueOf(d, p, items, OnPlane, "CRTC_ID") == Some(p.crtcId)
    && ValueOf(d, p, items, OnPlane, "FB_ID") == Some(p.fbId)
    && ValueOf(d, p, items, OnCrtc, "MODE_ID") == Some(p.blobId)
    && ValueOf(d, p, items, OnCrtc, "ACTIVE") == Some(1)
  }

  /** Both rectangles begin at the origin, and their sizes agree exactly on the sides below 32768. */
  ghost predicate ScaledOnlyAbove(d: Device, p: Pipeline, items: seq<Assignment>) {
    var width, height := p.mode.hdisplay, p.mode.vdisplay;
    && ValueOf(d, p, items, OnPlane, "SRC_X") == ValueOf(d, p, items, OnPlane, "SRC_Y") == Some(0)
    && ValueOf(d, p, items, OnPlane, "CRTC_X") == ValueOf(d, p, items, OnPlane, "CRTC_Y") == Some(0)
    && ValueOf(d, p, items, OnPlane, "CRTC_W") == Some(width)
    && ValueOf(d, p, items, OnPlane, "CRTC_H") == Some(height)
    && (ValueOf(d, p, items, OnPlane, "SRC_W") == Some(0x1_0000 * width) <==> width < 0x8000)
    && (ValueOf(d, p, items, OnPlane, "SRC_H") == Some(0x1_0000 * height) <==> height < 0x8000)
  }

  lemma RouteByName(d: Device, p: Pipeline)
    requires Gives(d, p, RouteWishes(p))
    ensures Routed(d, p, GrantAll(d, p, Wishes(p)))
  {
    var route := RouteWishes(p);
    assert route[0].name == "CRTC_ID" && route[1].name == "MODE_ID" && route[2].name == "ACTIVE";
    assert route[3].name == "FB_ID" && route[4].name == "CRTC_ID";
  }

  lemma SizesByName(d: Device, p: Pipeline)
    requires Gives(d, p, SourceWishes(p)) && Gives(d, p, TargetWishes(p))
    ensures ScaledOnlyAbove(d, p, GrantAll(d, p, Wishes(p)))
  {
    ShiftIsFixedPointIff(p.mode.hdisplay);
    ShiftIsFixedPointIff(p.mode.vdisplay);
    var source, target := SourceWishes(p), TargetWishes(p);
    assert source[0].name == "SRC_X" && source[1].name == "SRC_Y";
    assert source[2].name == "SRC_W" && source[3].name == "SRC_H";
    assert target[0].name == "CRTC_X" && target[1].name == "CRTC_Y";
    assert target[2].name == "CRTC_W" && target[3].name == "CRTC_H";
  }

  /** The committed request routes the pipeline, and scales nothing if and only if the sizes are below 32768. */
  lemma RequestRoutesPipeline(d: Device, p: Pipeline)
    requires DistinctObjects(p) && Complete(d, p)
    requires Identified(d.connector) && Identified(d.crtc) && Identified(d.plane)
    ensures Routed(d, p, GrantAll(d, p, Wishes(p))) && ScaledOnlyAbove(d, p, GrantAll(d, p, Wishes(p)))
  {
    AllWishesComeTrue(d, p);
    RouteByName(d, p);
    SizesByName(d, p);
  }
}
