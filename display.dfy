/** The DRM/KMS output (slideshow/src/display.c): the card probe, the choice
    of connector, two dumb frame buffers and the toggle between them. Every
    kernel call is replaced by its reply, given as input; what the model
    keeps is which replies lead where, which resources the display holds and
    the order in which it gives them back. */
module Display {
  import opened Memory

  /** A frame buffer description as display.c fills it (struct buffer with
      the `handle` and `id` fields the code uses). Zero fields and a null
      mapping mean "not acquired". */
  class FrameBuffer {
    var width: nat
    var height: nat
    var stride: nat   // bytes per row: the pitch the allocator chose
    var size: nat     // bytes of the mapping
    var handle: nat   // dumb buffer handle
    var id: nat       // frame buffer object id
    var data: array?<bv8>

    constructor ()
      ensures Zeroed()
    {
      width, height, stride, size, handle, id, data := 0, 0, 0, 0, 0, 0, null;
    }

    ghost predicate Zeroed()
      reads this
    {
      width == 0 && height == 0 && stride == 0 && size == 0 && handle == 0 && id == 0 && data == null
    }

    /** Created and mapped: every row of `stride` bytes fits the mapping and
        holds `width` 4-byte pixels. */
    ghost predicate Drawable()
      reads this
    {
      data != null && data.Length == size && 4 * width <= stride && stride * height <= size
    }
  }

  /** What the display can hold: an open card, a dumb buffer, a frame buffer
      object, a memory mapping and the saved CRTC configuration. */
  datatype Resource = Card(fd: nat) | DumbBuffer(handle: nat) | FbObject(id: nat)
                    | Mapping(memory: array?<bv8>) | SavedCrtc

  /** What the display does with the hardware, in order. */
  datatype Event = Acquired(r: Resource) | Released(r: Resource)
                 | ModeSet(fbId: nat, ok: bool) | ModeRestored(crtc: Crtc)
                 | PageFlip(fbId: nat, ok: bool)

  /** The configuration drmModeGetCrtc returns and display_free restores. */
  datatype Crtc = Crtc(crtcId: nat, bufferId: nat, mode: Mode)

  datatype Mode = Mode(hdisplay: nat, vdisplay: nat)

  /** The replies to opening /dev/dri/card<i> (a descriptor, or None when
      open fails) and to asking it for the dumb-buffer capability (None when
      the query fails). */
  datatype CardReply = CardReply(fd: Option<nat>, dumbCap: Option<nat>)

  /** A connector as drmModeGetConnector returns it; per encoder, the CRTC
      id of the encoder drmModeGetEncoder returns, None when that fails. */
  datatype Connector = Connector(id: nat, connected: bool, modes: seq<Mode>, encoders: seq<Option<nat>>)

  /** The replies create_fb gets: the dumb buffer (handle, pitch, size), the
      frame buffer id, and whether the map ioctl and mmap succeed. */
  datatype DumbReply = DumbReply(handle: nat, pitch: nat, size: nat)
  datatype FbReplies = FbReplies(created: Option<DumbReply>, fbId: Option<nat>, mapped: bool, mmapped: bool)

  /** Every reply display_init gets. */
  datatype Hardware = Hardware(card: nat -> CardReply, resources: Option<seq<Option<Connector>>>,
                               fb0: FbReplies, fb1: FbReplies, saved: Option<Crtc>, modeSetOk: bool)

  /** What the kernel promises about its replies: non-zero handles and ids,
      a pitch of at least 4 bytes per pixel and a size that holds every row. */
  ghost predicate KernelReplies(r: FbReplies, width: nat, height: nat) {
    && (r.created.Some? ==> var c := r.created.value;
         c.handle != 0 && 4 * width <= c.pitch && c.pitch * height <= c.size)
    && (r.fbId.Some? ==> r.fbId.value != 0)
  }

  /** The kernel never hands out the same handle or id twice. */
  ghost predicate Distinct(a: FbReplies, b: FbReplies) {
    && (a.created.Some? && b.created.Some? ==> a.created.value.handle != b.created.value.handle)
    && (a.fbId.Some? && b.fbId.Some? ==> a.fbId.value != b.fbId.value)
  }

  /** What create_fb does with the hardware: the dumb buffer, the frame
      buffer object and the mapping `mem` taken in that order, and on a
      failure what was taken given back, the last first. */
  ghost function CreateLog(r: FbReplies, mem: array?<bv8>): seq<Event> {
    if r.created.None? then []
    else
      var dumb := DumbBuffer(r.created.value.handle);
      if r.fbId.None? then [Acquired(dumb), Released(dumb)]
      else
        var obj := FbObject(r.fbId.value);
        if !r.mapped || !r.mmapped then [Acquired(dumb), Acquired(obj), Released(obj), Released(dumb)]
        else [Acquired(dumb), Acquired(obj), Acquired(Mapping(mem))]
  }

  predicate FbSucceeds(r: FbReplies) {
    r.created.Some? && r.fbId.Some? && r.mapped && r.mmapped
  }

  /** The number of cards display_init tries: card0 and card1. */
  const CardCount := 2

  predicate Qualifies(r: CardReply) {
    r.fd.Some? && r.dumbCap.Some? && r.dumbCap.value != 0
  }

  /** The card the probe keeps, trying cards `i` .. CardCount - 1 in order. */
  function Probe(card: nat -> CardReply, i: nat): Option<nat>
    decreases CardCount - i
  {
    if i >= CardCount then None
    else if Qualifies(card(i)) then card(i).fd
    else Probe(card, i + 1)
  }

  /** The open and close events of the probe from card `i` on. */
  ghost function ProbeLog(card: nat -> CardReply, i: nat): seq<Event>
    decreases CardCount - i
  {
    if i >= CardCount then []
    else if Qualifies(card(i)) then [Acquired(Card(card(i).fd.value))]
    else if card(i).fd.Some? then [Acquired(Card(card(i).fd.value)), Released(Card(card(i).fd.value))] + ProbeLog(card, i + 1)
    else ProbeLog(card, i + 1)
  }

  /** The card probe keeps card0 when it qualifies, else card1 when it
      qualifies, and fails otherwise. */
  lemma ProbeOrder(card: nat -> CardReply)
    ensures Probe(card, 0) ==
      if Qualifies(card(0)) then card(0).fd
      else if Qualifies(card(1)) then card(1).fd
      else None
  {
  }

  /** A connector's choice: its first mode, the CRTC of its first encoder
      that could be fetched, and its id. */
  datatype Choice = Choice(mode: Mode, crtcId: nat, connId: nat)

  /** The CRTC of the first encoder that could be fetched. */
  function FirstEncoder(encoders: seq<Option<nat>>): Option<nat> {
    if encoders == [] then None
    else if encoders[0].Some? then encoders[0]
    else FirstEncoder(encoders[1..])
  }

  /** The choice a fetched connector offers, if it is connected, has a mode
      and has an encoder that can be fetched. */
  function Usable(conn: Option<Connector>): Option<Choice> {
    if conn.None? || !conn.value.connected || |conn.value.modes| == 0 then None
    else match FirstEncoder(conn.value.encoders)
      case None => None
      case Some(crtc) => Some(Choice(conn.value.modes[0], crtc, conn.value.id))
  }

  /** The choice of the first usable connector in resource order. */
  function FirstConnector(conns: seq<Option<Connector>>): Option<Choice> {
    if conns == [] then None
    else if Usable(conns[0]).Some? then Usable(conns[0])
    else FirstConnector(conns[1..])
  }

  /** FirstEncoder is the CRTC of the encoder at the first index whose fetch
      succeeded, and None exactly when every fetch failed. */
  lemma {:induction false} FirstEncoderIsFirst(encoders: seq<Option<nat>>)
    ensures FirstEncoder(encoders).None? <==> forall k :: 0 <= k < |encoders| ==> encoders[k].None?
    ensures FirstEncoder(encoders).Some? ==>
      exists i :: 0 <= i < |encoders| && encoders[i] == FirstEncoder(encoders)
        && forall k :: 0 <= k < i ==> encoders[k].None?
  {
    if encoders != [] && encoders[0].None? {
      FirstEncoderIsFirst(encoders[1..]);
      if FirstEncoder(encoders).Some? {
        var i :| 0 <= i < |encoders| - 1 && encoders[1..][i] == FirstEncoder(encoders[1..])
          && forall k :: 0 <= k < i ==> encoders[1..][k].None?;
        assert forall k :: 0 <= k < i + 1 ==> encoders[k].None?  by {
          forall k | 0 <= k < i + 1 ensures encoders[k].None? {
            if k > 0 { assert encoders[k] == encoders[1..][k - 1]; }
          }
        }
      } else {
        forall k | 0 <= k < |encoders| ensures encoders[k].None? {
          if k > 0 { assert encoders[k] == encoders[1..][k - 1]; }
        }
      }
    }
  }

  /** FirstConnector picks the connector at the first usable index, and
      yields None exactly when no connector is usable. */
  lemma {:induction false} FirstConnectorIsFirst(conns: seq<Option<Connector>>)
    ensures FirstConnector(conns).None? <==> forall k :: 0 <= k < |conns| ==> Usable(conns[k]).None?
    ensures FirstConnector(conns).Some? ==>
      exists i :: 0 <= i < |conns| && Usable(conns[i]) == FirstConnector(conns)
        && forall k :: 0 <= k < i ==> Usable(conns[k]).None?
  {
    if conns != [] && Usable(conns[0]).None? {
      FirstConnectorIsFirst(conns[1..]);
      if FirstConnector(conns).Some? {
        var i :| 0 <= i < |conns| - 1 && Usable(conns[1..][i]) == FirstConnector(conns[1..])
          && forall k :: 0 <= k < i ==> Usable(conns[1..][k]).None?;
        assert forall k :: 0 <= k < i + 1 ==> Usable(conns[k]).None? by {
          forall k | 0 <= k < i + 1 ensures Usable(conns[k]).None? {
            if k > 0 { assert conns[k] == conns[1..][k - 1]; }
          }
        }
      } else {
        forall k | 0 <= k < |conns| ensures Usable(conns[k]).None? {
          if k > 0 { assert conns[k] == conns[1..][k - 1]; }
        }
      }
    }
  }

  /** The resources the fields of `fb` record. */
  ghost function FbOwned(fb: FrameBuffer): set<Resource>
    reads fb
  {
    Opt(fb.id != 0, FbObject(fb.id)) + Opt(fb.handle != 0, DumbBuffer(fb.handle))
    + Opt(fb.data != null, Mapping(fb.data))
  }

  /** `{r}` when `b` holds, nothing otherwise. */
  ghost function Opt(b: bool, r: Resource): set<Resource> {
    if b then {r} else {}
  }

  /** What free_fb gives back, in its order: the frame buffer object, the
      dumb buffer, the mapping; only the fields that are set. */
  ghost function FreeLog(fb: FrameBuffer): seq<Event>
    reads fb
  {
    ReleasedIf(fb.id != 0, FbObject(fb.id)) + ReleasedIf(fb.handle != 0, DumbBuffer(fb.handle))
    + ReleasedIf(fb.data != null, Mapping(fb.data))
  }

  ghost function ReleasedIf(b: bool, r: Resource): seq<Event> {
    if b then [Released(r)] else []
  }

  /** What display_free gives back, in its order: the saved CRTC (after
      restoring it), both frame buffers, the card. */
  ghost function RestoreLog(saved: Option<Crtc>): seq<Event> {
    if saved.Some? then [ModeRestored(saved.value), Released(SavedCrtc)] else []
  }

  /** Taking away a part that shares nothing with the rest leaves the rest. */
  lemma Peel(a: set<Resource>, rest: set<Resource>)
    requires a !! rest
    ensures (a + rest) - a == rest
  {
  }

  /** Adding the card to what a display without one holds. */
  lemma Regroup(s: set<Resource>, f0: set<Resource>, f1: set<Resource>, c: Resource)
    ensures (s + (f0 + (f1 + {}))) + {c} == s + (f0 + (f1 + {c}))
  {
  }

  ghost function CloseLog(fd: int): seq<Event> {
    if fd >= 0 then [Released(Card(fd))] else []
  }

  class Display {
    var fd: int
    var connId: nat
    var crtcId: nat
    var crtcSave: Option<Crtc>
    var cfb: FrameBuffer?
    const fb0: FrameBuffer
    const fb1: FrameBuffer
    /** Every acquisition, release, mode change and flip, in order. */
    ghost var log: seq<Event>
    /** What the display holds now. */
    ghost var held: set<Resource>

    /** calloc of the context: nothing set, nothing held. */
    constructor ()
      ensures fd == 0 && crtcSave.None? && cfb == null && fresh(fb0) && fresh(fb1)
      ensures fb0.Zeroed() && fb1.Zeroed() && fb0 != fb1
      ensures log == [] && held == {}
    {
      fd, connId, crtcId, crtcSave, cfb := 0, 0, 0, None, null;
      fb0 := new FrameBuffer();
      fb1 := new FrameBuffer();
      log, held := [], {};
    }

    /** The resources the fields record. */
    ghost function Owned(): set<Resource>
      reads this`fd, this`crtcSave, fb0, fb1
    {
      Opt(crtcSave.Some?, SavedCrtc) + (FbOwned(fb0) + (FbOwned(fb1) + Opt(fd >= 0, Card(if fd >= 0 then fd else 0))))
    }

    /** The fields record exactly what the display holds. */
    ghost predicate Accounted()
      reads this`fd, this`crtcSave, this`held, fb0, fb1
    {
      fb0 != fb1 && fd >= -1 && held == Owned() && FbOwned(fb0) !! FbOwned(fb1)
    }

    /** A display after a successful display_init. */
    ghost predicate Valid()
      reads this, fb0, fb1
    {
      && Accounted() && fd >= 0
      && (cfb == fb0 || cfb == fb1)
      && fb0.Drawable() && fb1.Drawable() && fb0.data != fb1.data
      && fb0.width == fb1.width && fb0.height == fb1.height
    }

    ghost method Acquire(r: Resource)
      requires r !in held
      modifies this`log, this`held
      ensures held == old(held) + {r} && log == old(log) + [Acquired(r)]
    {
      held := held + {r};
      log := log + [Acquired(r)];
    }

    /** Giving back is only allowed for what is held. */
    ghost method Release(r: Resource)
      requires r in held
      modifies this`log, this`held
      ensures held == old(held) - {r} && log == old(log) + [Released(r)]
    {
      held := held - {r};
      log := log + [Released(r)];
    }

    /** free_fb: gives back what the fields of `fb` record, and nothing else. */
    method FreeFb(fb: FrameBuffer)
      requires FbOwned(fb) <= held
      modifies this`log, this`held
      ensures held == old(held) - FbOwned(fb)
      ensures log == old(log) + FreeLog(fb)
    {
      if fb.id != 0 {
        Release(FbObject(fb.id));
      }
      if fb.handle != 0 {
        Release(DumbBuffer(fb.handle));
      }
      if fb.data != null {
        Release(Mapping(fb.data));
      }
    }

    /** create_fb: on success `fb` records the requested size, the pitch and
        size of the dumb buffer, its handle, the frame buffer id and the
        mapping; on any failure it gives back what it took and leaves `fb`
        all zero. */
    method CreateFb(fb: FrameBuffer, width: nat, height: nat, r: FbReplies) returns (ok: bool)
      requires fb.Zeroed()
      requires KernelReplies(r, width, height)
      requires r.created.Some? ==> DumbBuffer(r.created.value.handle) !in held
      requires r.fbId.Some? ==> FbObject(r.fbId.value) !in held
      modifies this`log, this`held, fb
      ensures held == old(held) + FbOwned(fb) && old(held) !! FbOwned(fb)
      ensures ok == FbSucceeds(r)
      ensures ok ==> && fb.width == width && fb.height == height
                     && fb.stride == r.created.value.pitch && fb.size == r.created.value.size
                     && fb.handle == r.created.value.handle && fb.id == r.fbId.value
                     && fb.Drawable() && fresh(fb.data)
      ensures !ok ==> fb.Zeroed()
      ensures log == old(log) + CreateLog(r, fb.data)
    {
      if r.created.None? {
        return false;
      }
      ghost var h0 := held;
      var dumb := r.created.value;
      fb.handle, fb.stride, fb.size, fb.width, fb.height := dumb.handle, dumb.pitch, dumb.size, width, height;
      Acquire(DumbBuffer(dumb.handle));
      if r.fbId.None? {
        ok := false;
      } else {
        fb.id := r.fbId.value;
        Acquire(FbObject(fb.id));
        if !r.mapped || !r.mmapped {
          ok := false;
        } else {
          fb.data := new bv8[dumb.size];
          Acquire(Mapping(fb.data));
          assert held == h0 + FbOwned(fb);
          return true;
        }
      }
      assert held == h0 + FbOwned(fb) && h0 !! FbOwned(fb);
      Abandon(fb);
    }

    /** create_fb's failure path: free_fb, then the fields cleared. */
    method Abandon(fb: FrameBuffer)
      requires FbOwned(fb) <= held && fb.data == null
      modifies this`log, this`held, fb
      ensures held == old(held) - old(FbOwned(fb)) && fb.Zeroed()
      ensures log == old(log) + old(FreeLog(fb))
    {
      FreeFb(fb);
      fb.width, fb.height, fb.stride, fb.size, fb.handle, fb.id := 0, 0, 0, 0, 0, 0;
    }

    /** get_connector: the first usable connector in resource order gives
        the mode, the CRTC and the connector id; nothing is chosen when the
        resources cannot be read or no connector is usable. */
    method GetConnector(resources: Option<seq<Option<Connector>>>) returns (found: bool, mode: Mode)
      modifies this`crtcId, this`connId
      ensures found <==> resources.Some? && FirstConnector(resources.value).Some?
      ensures found ==> FirstConnector(resources.value) == Some(Choice(mode, crtcId, connId))
      ensures !found ==> crtcId == old(crtcId) && connId == old(connId)
    {
      mode := Mode(0, 0);
      if resources.None? {
        return false, mode;
      }
      var conns := resources.value;
      var i := 0;
      while i < |conns|
        invariant 0 <= i <= |conns|
        invariant FirstConnector(conns) == FirstConnector(conns[i..])
        invariant crtcId == old(crtcId) && connId == old(connId)
      {
        assert conns[i..][0] == conns[i] && conns[i..][1..] == conns[i + 1..];
        var conn := conns[i];
        if conn.None? || !conn.value.connected || |conn.value.modes| == 0 {
          i := i + 1;
          continue;
        }
        var encs := conn.value.encoders;
        var j := 0;
        while j < |encs|
          invariant 0 <= j <= |encs|
          invariant FirstEncoder(encs) == FirstEncoder(encs[j..])
          invariant crtcId == old(crtcId) && connId == old(connId)
        {
          assert encs[j..][0] == encs[j] && encs[j..][1..] == encs[j + 1..];
          if encs[j].None? {
            j := j + 1;
            continue;
          }
          mode := conn.value.modes[0];
          crtcId := encs[j].value;
          connId := conn.value.id;
          return true, mode;
        }
        i := i + 1;
      }
      return false, mode;
    }

    /** The probe loop of display_init: opens card0, then card1, closing a
        card that lacks dumb buffers, until one qualifies. */
    method OpenCard(card: nat -> CardReply)
      requires fd == -1 && Accounted()
      modifies this`fd, this`log, this`held
      ensures Accounted()
      ensures fd == (if Probe(card, 0).Some? then Probe(card, 0).value else -1)
      ensures log == old(log) + ProbeLog(card, 0)
    {
      ghost var h0 := held;
      assert forall r | r in h0 :: !r.Card?;
      var i := 0;
      while fd == -1 && i < CardCount
        invariant 0 <= i <= CardCount
        invariant fd == -1 ==> held == h0
        invariant fd != -1 ==> fd >= 0 && held == h0 + {Card(fd)}
        invariant fd == -1 ==> Probe(card, 0) == Probe(card, i) && old(log) + ProbeLog(card, 0) == log + ProbeLog(card, i)
        invariant fd != -1 ==> Some(fd) == Probe(card, 0) && log == old(log) + ProbeLog(card, 0)
      {
        var reply := card(i);
        if reply.fd.None? {
          i := i + 1;
          continue;
        }
        var cardFd := reply.fd.value;
        Acquire(Card(cardFd));
        if !Qualifies(reply) {
          Release(Card(cardFd));
          assert held == h0;
          i := i + 1;
          continue;
        }
        fd := cardFd;
      }
      if fd != -1 {
        Regroup(Opt(crtcSave.Some?, SavedCrtc), FbOwned(fb0), FbOwned(fb1), Card(fd));
      }
    }

    /** `create_fb(fb0) && create_fb(fb1)` of display_init, at the size of
        `mode`: the second buffer is only created when the first was. */
    method CreateBuffers(mode: Mode, r0: FbReplies, r1: FbReplies) returns (ok: bool)
      requires Accounted() && fb0.Zeroed() && fb1.Zeroed()
      requires KernelReplies(r0, mode.hdisplay, mode.vdisplay) && KernelReplies(r1, mode.hdisplay, mode.vdisplay)
      requires Distinct(r0, r1) && forall r :: r in held ==> r.Card? || r.SavedCrtc?
      modifies this`log, this`held, fb0, fb1
      ensures Accounted()
      ensures ok == (FbSucceeds(r0) && FbSucceeds(r1))
      ensures ok ==> && fb0.Drawable() && fb1.Drawable() && fresh(fb0.data) && fresh(fb1.data)
                     && fb0.width == fb1.width == mode.hdisplay && fb0.height == fb1.height == mode.vdisplay
                     && fb0.id == r0.fbId.value
    {
      ok := CreateFb(fb0, mode.hdisplay, mode.vdisplay, r0);
      assert Accounted();
      if ok {
        ok := CreateFb(fb1, mode.hdisplay, mode.vdisplay, r1);
      }
    }

    /** The rest of display_init once a connector is chosen: both frame
        buffers at the size of `mode`, the saved CRTC and the mode set on
        the first buffer; any failure runs display_free. */
    method Start(mode: Mode, hw: Hardware) returns (ok: bool)
      requires fd >= 0 && Accounted() && held == {Card(fd)} && crtcSave.None? && fb0.Zeroed() && fb1.Zeroed()
      requires KernelReplies(hw.fb0, mode.hdisplay, mode.vdisplay) && KernelReplies(hw.fb1, mode.hdisplay, mode.vdisplay)
      requires Distinct(hw.fb0, hw.fb1)
      modifies this`log, this`held, this`crtcSave, this`cfb, fb0, fb1
      ensures ok == (FbSucceeds(hw.fb0) && FbSucceeds(hw.fb1) && hw.modeSetOk)
      ensures !ok ==> held == {}
      ensures ok ==> && Valid() && cfb == fb0 && crtcSave == hw.saved
                     && fb0.width == mode.hdisplay && fb0.height == mode.vdisplay
                     && fresh(fb0.data) && fresh(fb1.data)
                     && |log| > 0 && log[|log| - 1] == ModeSet(fb0.id, true)
    {
      ok := CreateBuffers(mode, hw.fb0, hw.fb1);
      if !ok {
        Free();
        return;
      }
      crtcSave := hw.saved;
      if crtcSave.Some? {
        Acquire(SavedCrtc);
      }
      cfb := fb0;
      log := log + [ModeSet(fb0.id, hw.modeSetOk)];
      if !hw.modeSetOk {
        Free();
        return false;
      }
    }

    /** display_init: probe card0 then card1, choose the connector, create
        both frame buffers at the connector's first mode, save the current
        CRTC and set the mode on the first buffer. Every failure after the
        probe runs display_free, so a failed init holds nothing. */
    static method Init(hw: Hardware) returns (d: Display?, ghost left: set<Resource>)
      requires hw.resources.Some? && FirstConnector(hw.resources.value).Some? ==>
        var m := FirstConnector(hw.resources.value).value.mode;
        KernelReplies(hw.fb0, m.hdisplay, m.vdisplay) && KernelReplies(hw.fb1, m.hdisplay, m.vdisplay)
      requires Distinct(hw.fb0, hw.fb1)
      ensures d != null <==>
        && Probe(hw.card, 0).Some?
        && hw.resources.Some? && FirstConnector(hw.resources.value).Some?
        && FbSucceeds(hw.fb0) && FbSucceeds(hw.fb1) && hw.modeSetOk
      ensures d == null ==> left == {}
      ensures d != null ==>
        && fresh(d) && d.Valid() && d.cfb == d.fb0 && left == d.held
        && |d.log| > 0 && d.log[|d.log| - 1] == ModeSet(d.fb0.id, true)
        && Some(d.fd) == Probe(hw.card, 0) && d.crtcSave == hw.saved
        && (var c := FirstConnector(hw.resources.value).value;
            d.connId == c.connId && d.crtcId == c.crtcId
            && d.fb0.width == c.mode.hdisplay && d.fb0.height == c.mode.vdisplay)
    {
      d := new Display();
      d.fd := -1;
      d.OpenCard(hw.card);
      if d.fd == -1 {
        return null, d.held;
      }
      var found, mode := d.GetConnector(hw.resources);
      if !found {
        d.Free();
        return null, d.held;
      }
      var ok := d.Start(mode, hw);
      if !ok {
        return null, d.held;
      }
      return d, d.held;
    }

    /** display_free: restores the saved CRTC if there is one, frees both
        frame buffers, closes the card if it is open; afterwards nothing is
        held. */
    method Free()
      requires Accounted()
      modifies this`log, this`held
      ensures held == {}
      ensures log == old(log) + RestoreLog(crtcSave) + FreeLog(fb0) + FreeLog(fb1) + CloseLog(fd)
    {
      ghost var l0 := log;
      ghost var card := Opt(fd >= 0, Card(if fd >= 0 then fd else 0));
      Peel(Opt(crtcSave.Some?, SavedCrtc), FbOwned(fb0) + (FbOwned(fb1) + card));
      Peel(FbOwned(fb0), FbOwned(fb1) + card);
      Peel(FbOwned(fb1), card);
      RestoreCrtc();
      FreeFb(fb0);
      FreeFb(fb1);
      assert log == l0 + RestoreLog(crtcSave) + FreeLog(fb0) + FreeLog(fb1);
      CloseCard();
    }

    /** The first step of display_free: the saved CRTC set back and freed. */
    method RestoreCrtc()
      requires crtcSave.Some? ==> SavedCrtc in held
      modifies this`log, this`held
      ensures held == old(held) - Opt(crtcSave.Some?, SavedCrtc)
      ensures log == old(log) + RestoreLog(crtcSave)
    {
      if crtcSave.Some? {
        log := log + [ModeRestored(crtcSave.value)];
        Release(SavedCrtc);
      }
    }

    /** The last step of display_free: the card closed if it is open. */
    method CloseCard()
      requires fd >= -1 && (fd >= 0 ==> Card(fd) in held)
      modifies this`log, this`held
      ensures held == old(held) - Opt(fd >= 0, Card(if fd >= 0 then fd else 0))
      ensures log == old(log) + CloseLog(fd)
    {
      if fd != -1 {
        Release(Card(fd));
      }
    }

    /** display_draw: the buffer `cfb` points to; changes nothing. Right
        after display_init that is fb[0], the buffer the mode was set on and
        the one on screen; after each commit it is the buffer not just
        flipped to. */
    method Draw() returns (fb: FrameBuffer?)
      ensures fb == cfb
    {
      fb := cfb;
    }

    /** display_commit: asks for a flip to the buffer just drawn and, whether
        or not the flip succeeded, makes the other buffer the draw target. */
    method Commit(flipOk: bool)
      requires Valid()
      modifies this`cfb, this`log
      ensures Valid()
      ensures cfb == Other(old(cfb))
      ensures log == old(log) + [PageFlip(old(cfb).id, flipOk)]
    {
      log := log + [PageFlip(cfb.id, flipOk)];
      if cfb == fb0 {
        cfb := fb1;
      } else {
        cfb := fb0;
      }
    }

    /** The buffer that is not `fb`. */
    ghost function Other(fb: FrameBuffer?): FrameBuffer {
      if fb == fb0 then fb1 else fb0
    }
  }
}
