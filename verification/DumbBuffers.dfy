/**
 * Setup and cleanup of dumb buffers: what is acquired from the DRM device, in which order it is given
 * back, and what is left behind, for every point at which a step can fail.
 */
module DumbBuffers {
  import opened Words

  datatype Resource = Handle(handle: uint32) | Framebuffer(id: uint32) | Mapping(address: nat) | Blob(blob: uint32)

  /** The three values `buf->map` distinguishes. */
  datatype MapState = Null | MapFailed | Mapped(address: nat)

  datatype DumbBuffer = DumbBuffer(handle: uint32, fbId: uint32, mapped: MapState)

  const ZEROED := DumbBuffer(0, 0, Null)

  /** Where `create_dumb_buffer` stopped. */
  datatype CreateResult = Created | CreateDumbFailed | AddFbFailed | MapDumbFailed | MmapFailed

  /** What a buffer structure owns, in the order it was acquired. */
  function Acquisitions(buf: DumbBuffer): seq<Resource> {
    (if buf.handle != 0 then [Handle(buf.handle)] else []) +
    (if buf.fbId != 0 then [Framebuffer(buf.fbId)] else []) +
    (if buf.mapped.Mapped? then [Mapping(buf.mapped.address)] else [])
  }

  /** The same resources, unmap first, then the framebuffer, then the handle. */
  function Releases(buf: DumbBuffer): seq<Resource> {
    (if buf.mapped.Mapped? then [Mapping(buf.mapped.address)] else []) +
    (if buf.fbId != 0 then [Framebuffer(buf.fbId)] else []) +
    (if buf.handle != 0 then [Handle(buf.handle)] else [])
  }

  /** The stages of taking a buffer down: unmap, remove the framebuffer, destroy the handle. */
  function Stage(r: Resource): nat {
    match r
    case Mapping(_) => 0
    case Framebuffer(_) => 1
    case Handle(_) => 2
    case Blob(_) => 3
  }

  /** Whatever there is of a buffer is taken down stage by stage. */
  predicate TakenDown(rs: seq<Resource>) {
    forall i, j | 0 <= i < j < |rs| :: Stage(rs[i]) < Stage(rs[j])
  }

  function Elements(rs: seq<Resource>): set<Resource> {
    set r | r in rs
  }

  function AllAcquisitions(bufs: seq<DumbBuffer>): seq<Resource> {
    if bufs == [] then [] else AllAcquisitions(bufs[..|bufs| - 1]) + Acquisitions(bufs[|bufs| - 1])
  }

  function AllReleases(bufs: seq<DumbBuffer>): seq<Resource> {
    if bufs == [] then [] else AllReleases(bufs[..|bufs| - 1]) + Releases(bufs[|bufs| - 1])
  }

  /** Every acquired resource is released, as often as it was acquired. */
  lemma {:induction false} ReleasesAreAcquisitions(bufs: seq<DumbBuffer>)
    ensures multiset(AllReleases(bufs)) == multiset(AllAcquisitions(bufs))
  {
    if bufs != [] {
      ReleasesAreAcquisitions(bufs[..|bufs| - 1]);
      var last := bufs[|bufs| - 1];
      assert multiset(Releases(last)) == multiset(Acquisitions(last));
    }
  }

  /** A structure without a handle owns nothing; one whose creation stopped owns a prefix of the steps. */
  predicate Consistent(buf: DumbBuffer) {
    && (buf.handle == 0 ==> buf == ZEROED)
    && (buf.fbId == 0 ==> buf.mapped == Null)
  }

  /** The device: what it has handed out, the history of both directions, and how many calls it refused. */
  class Drm {
    var live: set<Resource>
    ghost var acquired: seq<Resource>
    ghost var released: seq<Resource>
    ghost var failures: nat
    ghost var offset: Option<uint32>  // the handle that MAP_DUMB has handed out an offset for

    constructor ()
      ensures live == {} && acquired == [] && released == [] && failures == 0
    {
      live, acquired, released, failures, offset := {}, [], [], 0, None;
    }

    /** A request for a new object, which the device may refuse. */
    method Acquire(r: Resource) returns (ok: bool)
      modifies this
      ensures released == old(released)
      ensures ok ==> r !in old(live) && live == old(live) + {r} && acquired == old(acquired) + [r]
      ensures !ok ==> live == old(live) && acquired == old(acquired)
      ensures failures == old(failures) + if ok then 0 else 1
      ensures offset == old(offset)
    {
      ok := *;
      ok := ok && r !in live;
      if ok {
        live, acquired := live + {r}, acquired + [r];
      } else {
        failures := failures + 1;
      }
    }

    /** CREATE_DUMB; no object of the driver has id 0. */
    method CreateDumb() returns (ok: bool, handle: uint32)
      modifies this
      ensures released == old(released)
      ensures ok ==> handle != 0 && Handle(handle) !in old(live) && live == old(live) + {Handle(handle)}
      ensures ok ==> acquired == old(acquired) + [Handle(handle)]
      ensures !ok ==> live == old(live) && acquired == old(acquired)
      ensures failures == old(failures) + if ok then 0 else 1
    {
      handle :| handle != 0;
      ok := Acquire(Handle(handle));
    }

    /** `drmModeAddFB` on a handle. */
    method AddFb(handle: uint32) returns (ok: bool, fbId: uint32)
      requires Handle(handle) in live
      modifies this
      ensures released == old(released)
      ensures ok ==> fbId != 0 && Framebuffer(fbId) !in old(live) && live == old(live) + {Framebuffer(fbId)}
      ensures ok ==> acquired == old(acquired) + [Framebuffer(fbId)]
      ensures !ok ==> live == old(live) && acquired == old(acquired)
      ensures failures == old(failures) + if ok then 0 else 1
    {
      fbId :| fbId != 0;
      ok := Acquire(Framebuffer(fbId));
    }

    /** `drmModeCreatePropertyBlob`. */
    method CreateBlob() returns (ok: bool, blob: uint32)
      modifies this
      ensures released == old(released)
      ensures ok ==> blob != 0 && Blob(blob) !in old(live) && live == old(live) + {Blob(blob)}
      ensures ok ==> acquired == old(acquired) + [Blob(blob)]
      ensures !ok ==> live == old(live) && acquired == old(acquired)
      ensures failures == old(failures) + if ok then 0 else 1
    {
      blob :| blob != 0;
      ok := Acquire(Blob(blob));
    }

    /** MAP_DUMB hands out the offset at which a handle can be mapped. */
    method MapDumb(handle: uint32) returns (ok: bool)
      requires Handle(handle) in live
      modifies this`failures, this`offset
      ensures ok ==> offset == Some(handle)
      ensures failures == old(failures) + if ok then 0 else 1
    {
      ok := *;
      if ok {
        offset := Some(handle);
      } else {
        failures := failures + 1;
      }
    }

    /** `mmap` at the offset of a handle. */
    method Mmap(handle: uint32, address: nat) returns (ok: bool)
      requires offset == Some(handle)
      modifies this
      ensures released == old(released)
      ensures ok ==> Mapping(address) !in old(live) && live == old(live) + {Mapping(address)}
      ensures ok ==> acquired == old(acquired) + [Mapping(address)]
      ensures !ok ==> live == old(live) && acquired == old(acquired)
      ensures failures == old(failures) + if ok then 0 else 1
    {
      ok := Acquire(Mapping(address));
    }

    /** Giving back what is not held is what the callers must never do. */
    method Release(r: Resource)
      requires r in live
      modifies this
      ensures live == old(live) - {r} && released == old(released) + [r] && acquired == old(acquired)
      ensures failures == old(failures)
    {
      live, released := live - {r}, released + [r];
    }
  }

  /** `create_dumb_buffer` on a zeroed structure. It fails exactly if one of its calls does, and then at once. */
  method CreateDumbBuffer(drm: Drm) returns (r: CreateResult, buf: DumbBuffer)
    modifies drm
    ensures Consistent(buf)
    ensures drm.failures == old(drm.failures) + if r == Created then 0 else 1
    ensures drm.acquired == old(drm.acquired) + Acquisitions(buf) && drm.released == old(drm.released)
    ensures forall x :: x in Acquisitions(buf) ==> x !in old(drm.live)
    ensures drm.live == old(drm.live) + Elements(Acquisitions(buf))
    ensures |Acquisitions(buf)| ==
              match r { case Created => 3 case CreateDumbFailed => 0 case AddFbFailed => 1 case _ => 2 }
    ensures buf.mapped ==
              match r { case Created => Mapped(buf.mapped.address) case MmapFailed => MapFailed case _ => Null }
    ensures r == Created ==>
              drm.acquired ==
              old(drm.acquired) + [Handle(buf.handle), Framebuffer(buf.fbId), Mapping(buf.mapped.address)]
  {
    buf := ZEROED;
    var ok, handle := drm.CreateDumb();
    if !ok {
      return CreateDumbFailed, buf;
    }
    buf := buf.(handle := handle);
    var fbId;
    ok, fbId := drm.AddFb(handle);
    if !ok {
      return AddFbFailed, buf;
    }
    buf := buf.(fbId := fbId);
    ok := drm.MapDumb(handle);
    if !ok {
      return MapDumbFailed, buf;
    }
    var address: nat := *;
    ok := drm.Mmap(handle, address);
    buf := buf.(mapped := if ok then Mapped(address) else MapFailed);
    return if ok then Created else MmapFailed, buf;
  }

  /** Taking a buffer down releases what it owns, each once, in stages; of a complete buffer all three. */
  ghost predicate IsTakeDown(buf: DumbBuffer, down: seq<Resource>) {
    && TakenDown(down) && multiset(down) == multiset(Acquisitions(buf))
    && (buf.handle != 0 && buf.fbId != 0 && buf.mapped.Mapped? ==>
          down == [Mapping(buf.mapped.address), Framebuffer(buf.fbId), Handle(buf.handle)])
  }

  lemma SameParts(buf: DumbBuffer)
    ensures Elements(Releases(buf)) == Elements(Acquisitions(buf))
    ensures multiset(Releases(buf)) == multiset(Acquisitions(buf))
  {
  }

  lemma InStages(buf: DumbBuffer)
    ensures TakenDown(Releases(buf))
  {
  }

  lemma TakeDownOrder(buf: DumbBuffer)
    ensures IsTakeDown(buf, Releases(buf))
  {
    SameParts(buf);
    InStages(buf);
  }

  /** The structures are taken down one after the other. */
  ghost predicate TakenDownInTurn(bufs: seq<DumbBuffer>, released: seq<Resource>)
    decreases |bufs|
  {
    if bufs == [] then released == []
    else
      var last := |bufs| - 1;
      exists n | 0 <= n <= |released| ::
        TakenDownInTurn(bufs[..last], released[..n]) && IsTakeDown(bufs[last], released[n..])
  }

  lemma {:induction false} ReleasesInTurn(bufs: seq<DumbBuffer>)
    ensures TakenDownInTurn(bufs, AllReleases(bufs))
    decreases |bufs|
  {
    if bufs != [] {
      var front, last := bufs[..|bufs| - 1], bufs[|bufs| - 1];
      var all, n := AllReleases(bufs), |AllReleases(front)|;
      ReleasesInTurn(front);
      TakeDownOrder(last);
      assert all[..n] == AllReleases(front) && all[n..] == Releases(last);
    }
  }

  /** The three guarded releases both programs share. */
  method ReleaseParts(drm: Drm, buf: DumbBuffer)
    requires forall x :: x in Releases(buf) ==> x in drm.live
    modifies drm
    ensures drm.live == old(drm.live) - Elements(Releases(buf))
    ensures drm.released == old(drm.released) + Releases(buf) && drm.acquired == old(drm.acquired)
    ensures drm.failures == old(drm.failures)
  {
    if buf.mapped != Null && buf.mapped != MapFailed {
      drm.Release(Mapping(buf.mapped.address));
    }
    if buf.fbId != 0 {
      drm.Release(Framebuffer(buf.fbId));
    }
    if buf.handle != 0 {
      drm.Release(Handle(buf.handle));
    }
  }

  /** `destroy_dumb_buffer` of the page-flip program: it returns at once on a structure without a handle. */
  method DestroyDumbBuffer(drm: Drm, buf: DumbBuffer) returns (after: DumbBuffer)
    requires Consistent(buf)
    requires forall x :: x in Releases(buf) ==> x in drm.live
    modifies drm
    ensures after == ZEROED
    ensures drm.live == old(drm.live) - Elements(Releases(buf))
    ensures drm.released == old(drm.released) + Releases(buf) && drm.acquired == old(drm.acquired)
    ensures drm.failures == old(drm.failures)
  {
    if buf.handle == 0 {
      return buf;
    }
    ReleaseParts(drm, buf);
    after := ZEROED;
  }

  /** Everything a list of structures owns. */
  ghost function Owned(bufs: seq<DumbBuffer>): set<Resource> {
    Elements(AllAcquisitions(bufs))
  }

  lemma OwnedStep(bufs: seq<DumbBuffer>)
    requires bufs != []
    ensures Owned(bufs) == Owned(bufs[..|bufs| - 1]) + Elements(Acquisitions(bufs[|bufs| - 1]))
  {
  }

  /** No resource is owned by two structures. */
  ghost predicate Separate(bufs: seq<DumbBuffer>) {
    forall i, x | 0 <= i < |bufs| && x in Acquisitions(bufs[i]) :: x !in Owned(bufs[..i])
  }

  lemma {:induction false} ZeroedOwnNothing(bufs: seq<DumbBuffer>)
    requires forall i | 0 <= i < |bufs| :: bufs[i] == ZEROED
    ensures AllReleases(bufs) == [] && AllAcquisitions(bufs) == []
  {
    if bufs != [] {
      ZeroedOwnNothing(bufs[..|bufs| - 1]);
    }
  }

  method DestroyNext(drm: Drm, buf: DumbBuffer, ghost held: seq<DumbBuffer>, ghost i: nat,
                     ghost live: set<Resource>, ghost released: seq<Resource>)
    returns (after: DumbBuffer)
    requires i < |held| && held[i] == buf && Consistent(buf) && Separate(held) && Owned(held) <= live
    requires drm.live == live - Owned(held[..i]) && drm.released == released + AllReleases(held[..i])
    modifies drm
    ensures after == ZEROED && drm.acquired == old(drm.acquired) && drm.failures == old(drm.failures)
    ensures drm.live == live - Owned(held[..i + 1]) && drm.released == released + AllReleases(held[..i + 1])
  {
    ReleasableNow(held, i, live);
    PrefixStep(held, i);
    after := DestroyDumbBuffer(drm, buf);
  }

  /** The loop at `err_destroy`; on structures that are zeroed already it does nothing. */
  method DestroyAll(drm: Drm, bufs: array<DumbBuffer>)
    requires Separate(bufs[..]) && Owned(bufs[..]) <= drm.live
    requires forall i | 0 <= i < bufs.Length :: Consistent(bufs[i])
    modifies drm, bufs
    ensures forall i | 0 <= i < bufs.Length :: bufs[i] == ZEROED
    ensures drm.live == old(drm.live) - Owned(old(bufs[..]))
    ensures drm.released == old(drm.released) + AllReleases(old(bufs[..])) && drm.acquired == old(drm.acquired)
    ensures drm.failures == old(drm.failures)
    ensures old(forall i | 0 <= i < bufs.Length :: bufs[i] == ZEROED) ==>
              drm.live == old(drm.live) && drm.released == old(drm.released)
  {
    ghost var held := bufs[..];
    var i := 0;
    while i < bufs.Length
      invariant i <= bufs.Length && |held| == bufs.Length
      invariant forall k | 0 <= k < i :: bufs[k] == ZEROED
      invariant forall k | i <= k < bufs.Length :: bufs[k] == held[k]
      invariant drm.live == old(drm.live) - Owned(held[..i]) && drm.acquired == old(drm.acquired)
      invariant drm.released == old(drm.released) + AllReleases(held[..i]) && drm.failures == old(drm.failures)
    {
      bufs[i] := DestroyNext(drm, bufs[i], held, i, old(drm.live), old(drm.released));
      i := i + 1;
    }
    assert held[..i] == held;
    if forall k | 0 <= k < |held| :: held[k] == ZEROED {
      ZeroedOwnNothing(held);
    }
  }

  lemma ReleasableNow(bufs: seq<DumbBuffer>, i: nat, live: set<Resource>)
    requires i < |bufs| && Separate(bufs) && Owned(bufs) <= live
    ensures forall x :: x in Releases(bufs[i]) ==> x in live - Owned(bufs[..i])
    ensures forall x :: x in Releases(bufs[i]) <==> x in Acquisitions(bufs[i])
  {
    OwnsMember(bufs, i);
  }

  lemma PrefixStep(bufs: seq<DumbBuffer>, i: nat)
    requires i < |bufs|
    ensures Owned(bufs[..i + 1]) == Owned(bufs[..i]) + Elements(Releases(bufs[i]))
    ensures AllReleases(bufs[..i + 1]) == AllReleases(bufs[..i]) + Releases(bufs[i])
  {
    assert bufs[..i + 1][..i] == bufs[..i];
    OwnedStep(bufs[..i + 1]);
    assert Elements(Releases(bufs[i])) == Elements(Acquisitions(bufs[i]));
  }

  lemma {:induction false} OwnsMember(bufs: seq<DumbBuffer>, i: nat)
    requires i < |bufs|
    ensures forall x :: x in Acquisitions(bufs[i]) ==> x in Owned(bufs)
  {
    OwnedStep(bufs);
    if i < |bufs| - 1 {
      OwnsMember(bufs[..|bufs| - 1], i);
    }
  }

  /** Every structure owns a handle, a framebuffer and a mapping. */
  predicate AllComplete(bufs: seq<DumbBuffer>) {
    forall k | 0 <= k < |bufs| :: bufs[k].handle != 0 && bufs[k].fbId != 0 && bufs[k].mapped.Mapped?
  }

  /** The structures so far own exactly what the device has handed out. */
  ghost predicate Balanced(drm: Drm, bufs: seq<DumbBuffer>)
    reads drm
  {
    && Separate(bufs) && drm.live == Owned(bufs)
    && drm.acquired == AllAcquisitions(bufs) && drm.released == []
  }

  method CreateNext(drm: Drm, ghost before: seq<DumbBuffer>) returns (r: CreateResult, buf: DumbBuffer)
    requires Balanced(drm, before) && AllComplete(before)
    modifies drm
    ensures Consistent(buf) && Balanced(drm, before + [buf])
    ensures r == Created ==> AllComplete(before + [buf])
    ensures r == Created <==> drm.failures == old(drm.failures)
    ensures drm.failures >= old(drm.failures)
  {
    r, buf := CreateDumbBuffer(drm);
    SeparateExtend(before, buf);
  }

  /** The creation loop: it stops exactly if a call fails, and leaves the structures behind it zeroed. */
  method CreateAll(drm: Drm, bufs: array<DumbBuffer>) returns (ok: bool)
    requires drm.live == {} && drm.acquired == [] && drm.released == []
    requires forall k | 0 <= k < bufs.Length :: bufs[k] == ZEROED
    modifies drm, bufs
    ensures forall k | 0 <= k < bufs.Length :: Consistent(bufs[k])
    ensures Balanced(drm, bufs[..])
    ensures ok ==> AllComplete(bufs[..])
    ensures ok <==> drm.failures == old(drm.failures)
  {
    ghost var done := [];
    var i := 0;
    ok := true;
    while i < bufs.Length && ok
      invariant i <= bufs.Length && |done| == i
      invariant forall k | 0 <= k < i :: bufs[k] == done[k]
      invariant forall k | 0 <= k < i :: Consistent(done[k])
      invariant forall k | i <= k < bufs.Length :: bufs[k] == ZEROED
      invariant ok ==> AllComplete(done)
      invariant ok <==> drm.failures == old(drm.failures)
      invariant drm.failures >= old(drm.failures)
      invariant Balanced(drm, done)
      decreases bufs.Length - i
    {
      var r, buf := CreateNext(drm, done);
      bufs[i] := buf;
      done := done + [buf];
      ok := r == Created;
      i := i + 1;
    }
    assert bufs[..][..i] == done;
    ZeroedTail(bufs[..], i);
  }

  /** From `err_destroy` on: whatever the structures own is given back, and nothing else was acquired. */
  method CleanUp(drm: Drm, bufs: array<DumbBuffer>)
    requires forall k | 0 <= k < bufs.Length :: Consistent(bufs[k])
    requires Balanced(drm, bufs[..])
    modifies drm, bufs
    ensures drm.live == {} && drm.acquired == old(drm.acquired)
    ensures drm.released == AllReleases(old(bufs[..])) && multiset(drm.released) == multiset(drm.acquired)
    ensures TakenDownInTurn(old(bufs[..]), drm.released) && drm.failures == old(drm.failures)
    ensures forall k | 0 <= k < bufs.Length :: bufs[k] == ZEROED
  {
    ghost var held := bufs[..];
    ReleasesAreAcquisitions(held);
    ReleasesInTurn(held);
    DestroyAll(drm, bufs);
    assert [] + AllReleases(held) == AllReleases(held);
  }

  lemma SeparateExtend(bufs: seq<DumbBuffer>, buf: DumbBuffer)
    requires Separate(bufs) && forall x :: x in Acquisitions(buf) ==> x !in Owned(bufs)
    ensures Separate(bufs + [buf])
    ensures AllAcquisitions(bufs + [buf]) == AllAcquisitions(bufs) + Acquisitions(buf)
    ensures Owned(bufs + [buf]) == Owned(bufs) + Elements(Acquisitions(buf))
  {
    var all := bufs + [buf];
    assert all[..|all| - 1] == bufs;
    OwnedStep(all);
    forall i, x | 0 <= i < |all| && x in Acquisitions(all[i]) ensures x !in Owned(all[..i]) {
      assert all[..i] == bufs[..i];
      if i < |bufs| {
        assert all[i] == bufs[i];
      }
    }
  }

  lemma {:induction false} ZeroedTail(bufs: seq<DumbBuffer>, i: nat)
    requires i <= |bufs| && Separate(bufs[..i])
    requires forall k | i <= k < |bufs| :: bufs[k] == ZEROED
    ensures AllAcquisitions(bufs) == AllAcquisitions(bufs[..i])
    ensures Separate(bufs)
  {
    if i == |bufs| {
      assert bufs[..i] == bufs;
    } else {
      var front := bufs[..|bufs| - 1];
      assert front[..i] == bufs[..i];
      ZeroedTail(front, i);
      assert bufs == front + [ZEROED];
      SeparateExtend(front, ZEROED);
    }
  }

  lemma OwnedParts(buf: DumbBuffer)
    requires Consistent(buf) && !buf.mapped.Mapped?
    ensures |Elements(Acquisitions(buf))| == |Acquisitions(buf)|
    ensures Elements(Acquisitions(buf)) == {} <==> Acquisitions(buf) == []
  {
    if buf.handle != 0 {
      assert Acquisitions(buf)[0] in Elements(Acquisitions(buf));
      assert Elements(Acquisitions(buf)) ==
             {Handle(buf.handle)} + if buf.fbId != 0 then {Framebuffer(buf.fbId)} else {};
    }
  }
}
