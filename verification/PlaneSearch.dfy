/**
 * The search loops of the atomic modeset example over a driver that may answer every single call with
 * NULL: what they find, and that every libdrm object they obtain is freed and none is read afterwards.
 */
module PlaneSearch {
  import opened Words
  import opened Bits

  const PLANE_TYPE_PRIMARY: int := 1

  // ------------------------------------------------------------------ the driver's answers

  /** The answer to `drmModeGetProperty`. */
  datatype Property = Property(id: uint32, name: string)

  /** One listed property: its id in the list, and the answer to the query for it. */
  datatype Listed = Listed(id: uint32, answer: Option<Property>)

  /** One entry of a property table with values. */
  datatype Entry = Entry(id: uint32, value: int)

  /** A plane, with the answers to the two property-table queries made for it. */
  datatype Plane = Plane(id: uint32, possibleCrtcs: uint32, lookup: Option<seq<Listed>>, table: Option<seq<Entry>>)

  datatype Mode = Mode(hdisplay: uint16, vdisplay: uint16)

  datatype Encoder = Encoder(crtcId: uint32)

  datatype Connector = Connector(
    id: uint32, connected: bool, modes: seq<Mode>, encoderId: uint32, encoder: Option<Encoder>)

  // ------------------------------------------------------------------ ownership

  /** An object handed out by libdrm. */
  class Reply<T> {
    const content: T

    constructor (content: T)
      ensures this.content == content
    {
      this.content := content;
    }
  }

  /** The objects the program has obtained and not freed. */
  class Libdrm {
    var held: set<object>

    /** A query: NULL, or a new object the caller has to free. */
    method Obtain<T>(answer: Option<T>) returns (r: Reply?<T>)
      modifies this
      ensures answer.None? ==> r == null && held == old(held)
      ensures answer.Some? ==> r != null && fresh(r) && r.content == answer.value && held == old(held) + {r}
    {
      r := null;
      if answer.Some? {
        r := new Reply(answer.value);
        held := held + {r};
      }
    }

    /** Freeing twice, or what was never obtained, is not possible. */
    method Free(r: object)
      requires r in held
      modifies this
      ensures held == old(held) - {r}
    {
      held := held - {r};
    }

    /** Reading a freed object is not possible either. */
    function Read<T>(r: Reply<T>): T
      requires r in held
      reads this
    {
      r.content
    }
  }

  // ------------------------------------------------------------------ get_prop_id

  /** The answer names the property, with a usable id. */
  predicate Names(listed: Listed, name: string) {
    listed.answer.Some? && listed.answer.value.name == name && listed.answer.value.id != 0
  }

  /** The id of the first listed property that can be read and has the name; 0 without one. */
  function PropId(lookup: Option<seq<Listed>>, name: string): uint32 {
    if lookup.None? then 0 else FirstNamed(lookup.value, name)
  }

  function FirstNamed(props: seq<Listed>, name: string): uint32 {
    if props == [] then 0
    else if Names(props[0], name) then props[0].answer.value.id
    else FirstNamed(props[1..], name)
  }

  lemma {:induction false} FirstNamedSplit(props: seq<Listed>, i: nat, name: string)
    requires i <= |props| && forall k | 0 <= k < i :: !Names(props[k], name)
    ensures FirstNamed(props, name) == FirstNamed(props[i..], name)
  {
    if i > 0 {
      assert props[1..][i - 1..] == props[i..];
      FirstNamedSplit(props[1..], i - 1, name);
    }
  }

  /** `get_prop_id`. */
  method GetPropId(drm: Libdrm, lookup: Option<seq<Listed>>, name: string) returns (id: uint32)
    modifies drm
    ensures id == PropId(lookup, name)
    ensures drm.held == old(drm.held)
  {
    id := 0;
    var props: Reply?<seq<Listed>> := drm.Obtain(lookup);
    if props == null {
      return 0;
    }
    var i := 0;
    while i < |drm.Read(props)|
      invariant drm.held == old(drm.held) + {props} && props.content == lookup.value
      invariant i <= |lookup.value| && id == 0
      invariant forall k | 0 <= k < i :: !Names(lookup.value[k], name)
    {
      var listed: Listed := drm.Read(props)[i];
      var prop: Reply?<Property> := drm.Obtain(listed.answer);
      if prop == null {
        i := i + 1;
        continue;
      }
      if drm.Read<Property>(prop).name == name {
        id := drm.Read<Property>(prop).id;
      }
      drm.Free(prop);
      if id != 0 {
        break;
      }
      i := i + 1;
    }
    FirstNamedSplit(lookup.value, i, name);
    drm.Free(props);
  }

  // ------------------------------------------------------------------ find_connector_crtc

  predicate Usable(connector: Option<Connector>) {
    connector.Some? && connector.value.connected && connector.value.modes != []
  }

  /** Connector i can be read, is connected and has a mode, and none before it is like that. */
  ghost predicate Chosen(connectors: seq<Option<Connector>>, i: nat) {
    && i < |connectors|
    && connectors[i].Some? && connectors[i].value.connected && |connectors[i].value.modes| > 0
    && forall k | 0 <= k < i ::
         connectors[k].None? || !connectors[k].value.connected || connectors[k].value.modes == []
  }

  /** Where the first readable, connected connector with a mode stands; the length without one. */
  function FirstUsable(connectors: seq<Option<Connector>>): (r: nat)
    ensures r <= |connectors| && (r < |connectors| ==> Usable(connectors[r]))
    ensures forall k | 0 <= k < r :: !Usable(connectors[k])
  {
    if connectors == [] || Usable(connectors[0]) then 0 else 1 + FirstUsable(connectors[1..])
  }

  /**
   * `find_connector_crtc`: `picked` is what is written to `*conn_id` and `*mode`, `crtcId` what is
   * written to `*crtc_id`; the call succeeds if and only if the latter is. Only the first usable
   * connector is considered, so a missing encoder there is an error whatever follows in the list.
   */
  method FindConnectorCrtc(drm: Libdrm, resources: Option<seq<Option<Connector>>>)
    returns (crtcId: Option<uint32>, picked: Option<(uint32, Mode)>)
    modifies drm
    ensures drm.held == old(drm.held)
    ensures resources.None? ==> crtcId.None? && picked.None?
    ensures picked.Some? ==> exists i: nat ::
              && i < |resources.value| && Chosen(resources.value, i)
              && picked.value == (resources.value[i].value.id, resources.value[i].value.modes[0])
    ensures resources.Some? && picked.None? ==> forall i: nat :: !Chosen(resources.value, i)
    ensures resources.Some? ==>
      var cs := resources.value;
      var i := FirstUsable(cs);
      && picked == (if i == |cs| then None else Some((cs[i].value.id, cs[i].value.modes[0])))
      && (crtcId.Some? <==> i < |cs| && cs[i].value.encoderId != 0 && cs[i].value.encoder.Some?)
      && (crtcId.Some? ==> crtcId.value == cs[i].value.encoder.value.crtcId)
  {
    crtcId, picked := None, None;
    var res: Reply?<seq<Option<Connector>>> := drm.Obtain(resources);
    if res == null {
      return;
    }
    var conn: Reply?<Connector> := null;
    var i := 0;
    while i < |drm.Read<seq<Option<Connector>>>(res)|
      invariant drm.held == old(drm.held) + {res} && res.content == resources.value && conn == null
      invariant i <= |resources.value| && forall k | 0 <= k < i :: !Usable(resources.value[k])
    {
      conn := drm.Obtain(drm.Read<seq<Option<Connector>>>(res)[i]);
      if conn == null {
        i := i + 1;
        continue;
      }
      if drm.Read<Connector>(conn).connected && |drm.Read<Connector>(conn).modes| > 0 {
        picked := Some((drm.Read<Connector>(conn).id, drm.Read<Connector>(conn).modes[0]));
        break;
      }
      drm.Free(conn);
      conn := null;
      i := i + 1;
    }
    assert i == FirstUsable(resources.value);
    assert conn != null ==> Chosen(resources.value, i);
    if conn == null {
      drm.Free(res);
      return;
    }
    var enc: Reply?<Encoder> := null;
    if drm.Read<Connector>(conn).encoderId != 0 {
      enc := drm.Obtain(drm.Read<Connector>(conn).encoder);
    }
    if enc == null {
      drm.Free(conn);
      drm.Free(res);
      return;
    }
    crtcId := Some(drm.Read<Encoder>(enc).crtcId);
    drm.Free(enc);
    drm.Free(conn);
    drm.Free(res);
  }

  // ------------------------------------------------------------------ find_primary_plane

  /** The set of CRTCs a plane can serve, as an integer, has 2^c as a summand. */
  predicate Serves(plane: Plane, crtcIndex: nat) {
    plane.possibleCrtcs / Pow2(crtcIndex) % 2 == 1
  }

  /** The inner loop finds its entry. */
  ghost predicate TypedPrimary(plane: Plane) {
    plane.table.Some? &&
    exists j :: 0 <= j < |plane.table.value| &&
      plane.table.value[j] == Entry(PropId(plane.lookup, "type"), PLANE_TYPE_PRIMARY)
  }

  ghost predicate Eligible(plane: Option<Plane>, crtcIndex: nat)
    requires crtcIndex < 32
  {
    plane.Some? && Serves(plane.value, crtcIndex) && TypedPrimary(plane.value)
  }

  /** Plane p is the one to return. */
  ghost predicate PlaneFound(crtcs: seq<uint32>, crtcId: uint32, planes: seq<Option<Plane>>, p: nat)
    requires |crtcs| < 32
  {
    var c := IndexOf(crtcs, crtcId);
    && c < |crtcs| && p < |planes| && Eligible(planes[p], c)
    && forall k | 0 <= k < p :: !Eligible(planes[k], c)
  }

  /** Where a value occurs first; the length if it does not occur. */
  function IndexOf(ids: seq<uint32>, id: uint32): (r: nat)
    ensures r <= |ids| && id !in ids[..r] && (r < |ids| ==> ids[r] == id)
  {
    if ids == [] || ids[0] == id then 0 else 1 + IndexOf(ids[1..], id)
  }

  /** `find_primary_plane`. The C shift is defined for fewer than 32 CRTCs. */
  method FindPrimaryPlane(drm: Libdrm, resources: Option<seq<uint32>>, planeResources: Option<seq<Option<Plane>>>,
                          crtcId: uint32)
    returns (planeId: Option<uint32>)
    requires resources.Some? ==> |resources.value| < 32
    modifies drm
    ensures drm.held == old(drm.held)
    ensures planeId.Some? <==> resources.Some? && planeResources.Some? &&
                               exists p: nat :: PlaneFound(resources.value, crtcId, planeResources.value, p)
    ensures planeId.Some? ==>
              exists p: nat :: PlaneFound(resources.value, crtcId, planeResources.value, p) &&
                          planeResources.value[p].value.id == planeId.value
  {
    var res: Reply?<seq<uint32>> := drm.Obtain(resources);
    if res == null {
      return None;
    }
    var crtcIndex := 0;
    while crtcIndex < |drm.Read<seq<uint32>>(res)| && drm.Read<seq<uint32>>(res)[crtcIndex] != crtcId
      invariant drm.held == old(drm.held) + {res} && res.content == resources.value
      invariant crtcIndex <= |resources.value| && crtcId !in resources.value[..crtcIndex]
    {
      crtcIndex := crtcIndex + 1;
    }
    if crtcIndex == |drm.Read<seq<uint32>>(res)| {
      drm.Free(res);
      return None;
    }
    var planes: Reply?<seq<Option<Plane>>> := drm.Obtain(planeResources);
    if planes == null {
      drm.Free(res);
      return None;
    }
    assert crtcIndex == IndexOf(resources.value, crtcId);
    planeId := None;
    var i := 0;
    while i < |drm.Read<seq<Option<Plane>>>(planes)|
      invariant drm.held == old(drm.held) + {res} + {planes}
      invariant planes !in old(drm.held) + {res} && res !in old(drm.held)
      invariant planes.content == planeResources.value && i <= |planeResources.value| && planeId == None
      invariant forall k | 0 <= k < i :: !Eligible(planeResources.value[k], crtcIndex)
    {
      planeId := CheckPlane(drm, drm.Read<seq<Option<Plane>>>(planes)[i], crtcIndex);
      if planeId.Some? {
        assert PlaneFound(resources.value, crtcId, planeResources.value, i);
        drm.Free(planes);
        drm.Free(res);
        return planeId;
      }
      i := i + 1;
    }
    drm.Free(planes);
    drm.Free(res);
  }

  /** The body of the plane loop: the plane's id if it is a primary plane for the CRTC. */
  method CheckPlane(drm: Libdrm, answer: Option<Plane>, crtcIndex: nat) returns (planeId: Option<uint32>)
    requires crtcIndex < 32
    modifies drm
    ensures drm.held == old(drm.held)
    ensures Eligible(answer, crtcIndex) ==> planeId == Some(answer.value.id)
    ensures !Eligible(answer, crtcIndex) ==> planeId == None
  {
    var plane: Reply?<Plane> := drm.Obtain(answer);
    if plane == null {
      return None;
    }
    TestBit(answer.value.possibleCrtcs, crtcIndex);
    if And(drm.Read<Plane>(plane).possibleCrtcs, Shift1(crtcIndex)) == 0 {
      drm.Free(plane);
      return None;
    }
    var typeId := GetPropId(drm, drm.Read<Plane>(plane).lookup, "type");
    var props: Reply?<seq<Entry>> := drm.Obtain(drm.Read<Plane>(plane).table);
    if props == null {
      drm.Free(plane);
      return None;
    }
    var j := 0;
    while j < |drm.Read<seq<Entry>>(props)|
      invariant drm.held == old(drm.held) + {plane} + {props}
      invariant props !in old(drm.held) + {plane} && plane !in old(drm.held)
      invariant props.content == answer.value.table.value && plane.content == answer.value
      invariant j <= |answer.value.table.value|
      invariant forall k | 0 <= k < j :: answer.value.table.value[k] != Entry(typeId, PLANE_TYPE_PRIMARY)
    {
      if drm.Read<seq<Entry>>(props)[j].id == typeId && drm.Read<seq<Entry>>(props)[j].value == PLANE_TYPE_PRIMARY {
        planeId := Some(drm.Read<Plane>(plane).id);
        drm.Free(props);
        drm.Free(plane);
        return;
      }
      j := j + 1;
    }
    drm.Free(props);
    drm.Free(plane);
    return None;
  }

  // ------------------------------------------------------------------ what the ids mean

  /**
   * A property table that does not change between the two queries: the lookup lists the ids of the
   * value table, ids are non-zero and distinct, and an answer carries the id that was asked for.
   */
  ghost predicate Stable(plane: Plane) {
    plane.lookup.Some? && plane.table.Some? &&
    var l, t := plane.lookup.value, plane.table.value;
    && |l| == |t|
    && (forall k | 0 <= k < |l| :: l[k].id == t[k].id != 0)
    && (forall k | 0 <= k < |l| && l[k].answer.Some? :: l[k].answer.value.id == l[k].id)
    && (forall k, m | 0 <= k < m < |l| :: l[k].id != l[m].id)
  }

  lemma {:induction false} FirstNamedIsSome(props: seq<Listed>, name: string)
    ensures FirstNamed(props, name) == 0 <==> forall k | 0 <= k < |props| :: !Names(props[k], name)
    ensures FirstNamed(props, name) != 0 ==>
      exists k :: 0 <= k < |props| && Names(props[k], name) && props[k].answer.value.id == FirstNamed(props, name) &&
                  forall m | 0 <= m < k :: !Names(props[m], name)
  {
    if props != [] && !Names(props[0], name) {
      FirstNamedIsSome(props[1..], name);
      forall k | 0 < k < |props| ensures props[k] == props[1..][k - 1] {}
      if FirstNamed(props[1..], name) != 0 {
        var k :| 0 <= k < |props[1..]| && Names(props[1..][k], name)
                 && props[1..][k].answer.value.id == FirstNamed(props[1..], name)
                 && forall m | 0 <= m < k :: !Names(props[1..][m], name);
        assert Names(props[k + 1], name);
      }
    }
  }

  /** The first property that can be read and is called "type" has the value PRIMARY. */
  ghost predicate TypeIsPrimary(plane: Plane)
    requires Stable(plane)
  {
    var l, t := plane.lookup.value, plane.table.value;
    exists k :: 0 <= k < |l| && Names(l[k], "type") && t[k].value == PLANE_TYPE_PRIMARY &&
                forall m | 0 <= m < k :: !Names(l[m], "type")
  }

  /** On a stable table the id comparison of the inner loop tests the plane's type. */
  lemma TypedPrimaryMeansPrimary(plane: Plane)
    requires Stable(plane)
    ensures TypedPrimary(plane) <==> TypeIsPrimary(plane)
  {
    var l, t := plane.lookup.value, plane.table.value;
    FirstNamedIsSome(l, "type");
    var id := PropId(plane.lookup, "type");
    if id != 0 {
      var k :| 0 <= k < |l| && Names(l[k], "type") && l[k].answer.value.id == id
               && forall m | 0 <= m < k :: !Names(l[m], "type");
      assert t[k].id == id;
      if j :| 0 <= j < |t| && t[j] == Entry(id, PLANE_TYPE_PRIMARY) {
        assert j == k by {
          assert l[j].id == l[k].id;
        }
      }
      if TypeIsPrimary(plane) {
        assert t[k] == Entry(id, PLANE_TYPE_PRIMARY);
      }
    }
  }

  /** What a driver whose tables do not change answers: either query may fail, and no id is 0. */
  ghost predicate Coherent(plane: Plane) {
    && (plane.lookup.Some? && plane.table.Some? ==> Stable(plane))
    && (plane.table.Some? ==> forall k | 0 <= k < |plane.table.value| :: plane.table.value[k].id != 0)
  }

  /** The plane can be read, bit `crtcIndex` of its CRTC set is 1, and its "type" is PRIMARY. */
  ghost predicate PrimaryFor(plane: Option<Plane>, crtcIndex: nat)
    requires crtcIndex < 32 && (plane.Some? ==> Coherent(plane.value))
  {
    && plane.Some? && plane.value.possibleCrtcs / Pow2(crtcIndex) % 2 == 1
    && plane.value.lookup.Some? && plane.value.table.Some? && TypeIsPrimary(plane.value)
  }

  lemma EligibleMeansPrimary(plane: Option<Plane>, crtcIndex: nat)
    requires crtcIndex < 32 && (plane.Some? ==> Coherent(plane.value))
    ensures Eligible(plane, crtcIndex) <==> PrimaryFor(plane, crtcIndex)
  {
    if plane.Some? && plane.value.lookup.Some? && plane.value.table.Some? {
      TypedPrimaryMeansPrimary(plane.value);
    }
  }

  /**
   * What `find_primary_plane` returns: on a driver whose tables do not change it is the first plane that
   * serves the CRTC and whose property called "type" is PRIMARY.
   */
  lemma FoundPlaneIsFirstPrimary(crtcs: seq<uint32>, crtcId: uint32, planes: seq<Option<Plane>>, p: nat)
    requires |crtcs| < 32
    requires forall k | 0 <= k < |planes| && planes[k].Some? :: Coherent(planes[k].value)
    ensures PlaneFound(crtcs, crtcId, planes, p) <==>
            && crtcId in crtcs && p < |planes| && PrimaryFor(planes[p], IndexOf(crtcs, crtcId))
            && forall k | 0 <= k < p :: !PrimaryFor(planes[k], IndexOf(crtcs, crtcId))
  {
    var c := IndexOf(crtcs, crtcId);
    assert crtcs[..|crtcs|] == crtcs;
    if p < |planes| {
      forall k: nat | k <= p ensures Eligible(planes[k], c) <==> PrimaryFor(planes[k], c) {
        EligibleMeansPrimary(planes[k], c);
      }
    }
  }
}
