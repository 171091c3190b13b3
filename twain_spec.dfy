/**
 * The application side of the TWAIN protocol, as TWAINManager drives it,
 * described on values.
 *
 * A World holds the six state flags with the two source identities and the
 * negotiated image count (the Session), what the source manager will answer
 * to each DSM_Entry call (a script of replies, one per call; an exhausted
 * script answers TWRC_FAILURE with zeroed fields), the outcomes of the
 * GlobalAlloc and GlobalLock calls, and a log: every driver call with its
 * reply, every image handed to the callback, and every GlobalFree.
 * Each operation of TWAINManager is a function from World to World here;
 * scanning.dfy proves that the class's methods compute these functions.
 */
module TwainSpec {
  import opened Common
  import opened CachedFiles
  import opened ImageLists

  /** Return codes (TWRC_*) and DAT_EVENT messages (MSG_*) of the TWAIN 1.x twain.h. */
  const TWRC_SUCCESS: int := 0
  const TWRC_FAILURE: int := 1
  const TWRC_CHECKSTATUS: int := 2
  const TWRC_CANCEL: int := 3
  const TWRC_NOTDSEVENT: int := 5
  const TWRC_XFERDONE: int := 6

  const MSG_NULL: int := 0x0000
  const MSG_XFERREADY: int := 0x0101
  const MSG_CLOSEDSREQ: int := 0x0102
  const MSG_CLOSEDSOK: int := 0x0103

  /** A TW_IDENTITY, told apart by its Id; the zeroed structure has Id 0. */
  datatype Identity = Identity(id: nat)
  const NoIdentity := Identity(0)

  /** An HGLOBAL memory handle. */
  datatype Handle = Handle(id: nat)

  /** The DSM_Entry triplets TWAINManager issues. */
  datatype Call =
    | OpenDSM | CloseDSM | UserSelect | OpenDS | CloseDS
    | GetCapability | SetCapability | GetStatus | EnableDS | DisableDS
    | GetImageInfo | NativeXfer | EndXfer | Reset | ProcessEvent

  /**
   * The driver's answer to one call: the return code and the fields the
   * caller reads back (the selected identity, TW_PENDINGXFERS.Count, the
   * capability container and its TW_ONEVALUE.Item, TW_EVENT.TWMessage and
   * the native image handle).
   */
  datatype Reply = Reply(rc: int, identity: Identity, count: int, container: Option<Handle>,
                         item: nat, message: int, image: Option<HBitmap>)

  /** What an exhausted script answers: failure, every field left as the caller zeroed it. */
  const NoReply := Reply(TWRC_FAILURE, NoIdentity, 0, None, 0, MSG_NULL, None)

  /** The log: library loads, driver calls with their replies, and images handed to the callback. */
  datatype Event = Load(path: string) | Sent(call: Call, reply: Reply) | Delivered(image: Option<HBitmap>)

  /** The module statics of scanning.cpp. */
  datatype Session = Session(dsmLoaded: bool, dsmOpened: bool, sourceOpened: bool, capsNegotiated: bool,
                             sourceEnabled: bool, transferReady: bool,
                             srcID: Identity, selID: Identity, imageCount: int)

  /** The session at process start: every flag clear, zeroed identities, count 0. */
  const Initial := Session(false, false, false, false, false, false, NoIdentity, NoIdentity, 0)

  /** The session, the driver's and the memory manager's scripts, the next HGLOBAL, and the logs. */
  datatype World = World(s: Session, replies: seq<Reply>, memory: seq<bool>, nextHandle: nat,
                         trace: seq<Event>, freed: seq<Handle>)

  /** An operation's new world and boolean result. */
  datatype Res = Res(w: World, ok: bool)

  /**
   * The TWAIN states the flags stand for nest: transfer ready (state 6)
   * implies enabled (5), which implies a source open (4), which implies the
   * manager open (3), which implies it loaded (2).
   */
  predicate Chain(s: Session) {
    && (s.transferReady ==> s.sourceEnabled)
    && (s.sourceEnabled ==> s.sourceOpened)
    && (s.sourceOpened ==> s.dsmOpened)
    && (s.dsmOpened ==> s.dsmLoaded)
  }

  /** The next reply of the script. */
  function Peek(rs: seq<Reply>): Reply {
    if rs == [] then NoReply else rs[0]
  }

  /** The script after one call. */
  function Rest(rs: seq<Reply>): seq<Reply> {
    if rs == [] then [] else rs[1..]
  }

  /** One DSM_Entry call: the next reply is consumed and logged with the call. */
  function Dsm(w: World, c: Call): (Reply, World) {
    (Peek(w.replies), w.(replies := Rest(w.replies), trace := w.trace + [Sent(c, Peek(w.replies))]))
  }

  /** One GlobalAlloc or GlobalLock: the next scripted outcome; success once the script is exhausted. */
  function Mem(w: World): (bool, World) {
    if w.memory == [] then (true, w) else (w.memory[0], w.(memory := w.memory[1..]))
  }

  /** No event of t is a call c. */
  predicate NoneSent(t: seq<Event>, c: Call) {
    forall i :: 0 <= i < |t| ==> !(t[i].Sent? && t[i].call == c)
  }

  /** The events the step from w to w2 added to the log. */
  function Added(w: World, w2: World): seq<Event> {
    if |w.trace| <= |w2.trace| then w2.trace[|w.trace|..] else []
  }

  /** `PathConcatenate(<Windows directory>, "TWAIN_32.DLL")`: where the source manager is loaded from. */
  function DsmPath(windowsDir: string): string {
    PathConcatenate(windowsDir, "TWAIN_32.DLL")
  }

  /**
   * `loadSourceManager`: once loaded nothing happens; otherwise the library
   * at DsmPath is loaded, and the manager is loaded exactly when the library
   * and its entry point (ordinal 1) were found.
   */
  function LoadSourceManager(w: World, windowsDir: string, loads: bool, hasEntry: bool): (r: Res)
    ensures r.ok == r.w.s.dsmLoaded && r.w.s == w.s.(dsmLoaded := r.ok) && r.w.replies == w.replies
    ensures w.s.dsmLoaded ==> r == Res(w, true)
    ensures !w.s.dsmLoaded ==> r.ok == (loads && hasEntry) && r.w.trace == w.trace + [Load(DsmPath(windowsDir))]
    ensures Chain(w.s) ==> Chain(r.w.s)
  {
    if w.s.dsmLoaded then Res(w, true)
    else
      var w1 := w.(trace := w.trace + [Load(DsmPath(windowsDir))]);
      Res(w1.(s := w1.s.(dsmLoaded := loads && hasEntry)), loads && hasEntry)
  }

  /**
   * `openSourceManager`: refused unless loaded; once open nothing happens;
   * otherwise MSG_OPENDSM, and the manager is open exactly when it succeeded.
   */
  function OpenSourceManager(w: World): (r: Res)
    ensures !w.s.dsmLoaded ==> r == Res(w, false)
    ensures w.s.dsmLoaded && w.s.dsmOpened ==> r == Res(w, true)
    ensures w.s.dsmLoaded && !w.s.dsmOpened ==>
              && r.ok == (Peek(w.replies).rc == TWRC_SUCCESS) && r.w.s == w.s.(dsmOpened := r.ok)
              && Added(w, r.w) == [Sent(OpenDSM, Peek(w.replies))]
    ensures Chain(w.s) ==> Chain(r.w.s)
  {
    if !w.s.dsmLoaded then Res(w, false)
    else if w.s.dsmOpened then Res(w, true)
    else
      var (rep, w1) := Dsm(w, OpenDSM);
      var ok := rep.rc == TWRC_SUCCESS;
      Res(w1.(s := w1.s.(dsmOpened := ok)), ok)
  }

  /**
   * `selectSource`: refused unless the manager is open; MSG_USERSELECT then
   * succeeds on TWRC_SUCCESS, copying the chosen identity into SrcID, and on
   * TWRC_CANCEL with SrcID unchanged, and fails on any other code. No other
   * part of the session changes: not SelID, not the source-opened flag.
   */
  function SelectSource(w: World): (r: Res)
    ensures !w.s.dsmOpened ==> r == Res(w, false)
    ensures w.s.dsmOpened ==>
              && r.ok == (Peek(w.replies).rc in {TWRC_SUCCESS, TWRC_CANCEL})
              && r.w.s.srcID == (if Peek(w.replies).rc == TWRC_SUCCESS then Peek(w.replies).identity else w.s.srcID)
              && Added(w, r.w) == [Sent(UserSelect, Peek(w.replies))]
    ensures r.w.s == w.s.(srcID := r.w.s.srcID)
  {
    if !w.s.dsmOpened then Res(w, false)
    else
      var (rep, w1) := Dsm(w, UserSelect);
      if rep.rc == TWRC_SUCCESS then Res(w1.(s := w1.s.(srcID := rep.identity)), true)
      else Res(w1, rep.rc == TWRC_CANCEL)
  }

  /**
   * `closeSource`: with no source open it succeeds at once; otherwise
   * MSG_CLOSEDS, and it succeeds exactly when the source is now closed, with
   * SelID zeroed. Nothing else in the session changes.
   */
  function CloseSource(w: World): (r: Res)
    ensures !w.s.sourceOpened ==> r == Res(w, true)
    ensures r.ok == !r.w.s.sourceOpened
    ensures w.s.sourceOpened ==> Added(w, r.w) == [Sent(CloseDS, Peek(w.replies))]
    ensures r.w.trace == w.trace + Added(w, r.w)
    ensures w.s.sourceOpened ==>
              r.w.s == if r.ok then w.s.(sourceOpened := false, selID := NoIdentity) else w.s
    ensures r.w.memory == w.memory && r.w.freed == w.freed && r.w.nextHandle == w.nextHandle
  {
    if !w.s.sourceOpened then Res(w, true)
    else
      var (rep, w1) := Dsm(w, CloseDS);
      if rep.rc == TWRC_SUCCESS then Res(w1.(s := w1.s.(sourceOpened := false, selID := NoIdentity)), true)
      else Res(w1, false)
  }

  /**
   * `disableSource`: with no source enabled it succeeds at once; otherwise
   * MSG_DISABLEDS, and it succeeds exactly when the source is now disabled.
   */
  function DisableSource(w: World): (r: Res)
    ensures !w.s.sourceEnabled ==> r == Res(w, true)
    ensures r.ok == !r.w.s.sourceEnabled && r.w.s == w.s.(sourceEnabled := r.w.s.sourceEnabled)
    ensures w.s.sourceEnabled ==>
              r.ok == (Peek(w.replies).rc == TWRC_SUCCESS) && Added(w, r.w) == [Sent(DisableDS, Peek(w.replies))]
    ensures r.w.trace == w.trace + Added(w, r.w)
    ensures r.w.memory == w.memory && r.w.freed == w.freed && r.w.nextHandle == w.nextHandle
  {
    if !w.s.sourceEnabled then Res(w, true)
    else
      var (rep, w1) := Dsm(w, DisableDS);
      var s1 := if rep.rc == TWRC_SUCCESS then w1.s.(sourceEnabled := false) else w1.s;
      Res(w1.(s := s1), !s1.sourceEnabled)
  }

  /**
   * `doAbortXfer`: MSG_ENDXFER, then MSG_RESET only when the pending count it
   * reported is not zero. The session is untouched.
   */
  function AbortXfer(w: World): (r: World)
    ensures r.s == w.s && r.memory == w.memory && r.freed == w.freed && r.nextHandle == w.nextHandle
    ensures r.trace == w.trace + if Peek(w.replies).count != 0 then [Sent(EndXfer, Peek(w.replies)), Sent(Reset, Peek(Rest(w.replies)))]
                                 else [Sent(EndXfer, Peek(w.replies))]
  {
    var (rep, w1) := Dsm(w, EndXfer);
    if rep.count != 0 then Dsm(w1, Reset).1 else w1
  }

  /** Disable the source; if it stays enabled, abort the pending transfers and try once more. */
  function DisableWithRetry(w: World): (r: Res)
    ensures r.ok == !r.w.s.sourceEnabled && r.w.s == w.s.(sourceEnabled := r.w.s.sourceEnabled)
    ensures r.w.memory == w.memory && r.w.freed == w.freed && r.w.nextHandle == w.nextHandle
    ensures NoneSent(Added(w, r.w), OpenDS) && NoneSent(Added(w, r.w), CloseDS)
  {
    var d := DisableSource(w);
    if d.ok then d else DisableSource(AbortXfer(d.w))
  }

  /** DisableWithRetry only appends to the log, and from an enabled source its first call is MSG_DISABLEDS. */
  lemma DisableWithRetryLog(w: World)
    ensures var r := DisableWithRetry(w);
            && |w.trace| <= |r.w.trace| && r.w.trace == w.trace + r.w.trace[|w.trace|..]
            && (w.s.sourceEnabled ==> |w.trace| < |r.w.trace| && r.w.trace[|w.trace|] == Sent(DisableDS, Peek(w.replies)))
  {
    var d := DisableSource(w);
    if !d.ok {
      var a := AbortXfer(d.w);
      var r := DisableSource(a);
      assert d.w.trace == w.trace + [Sent(DisableDS, Peek(w.replies))];
      assert r.w.trace == a.trace + r.w.trace[|a.trace|..] by {
        assert r.w.trace == a.trace + Added(a, r.w);
      }
      assert r.w.trace[|w.trace|] == a.trace[|w.trace|];
    }
  }

  /**
   * MSG_OPENDS on SrcID: on success SelID becomes SrcID, the source is open,
   * its capabilities not negotiated and the image count 0.
   */
  function OpenDs(w: World): (r: Res)
    ensures r.ok == (Peek(w.replies).rc == TWRC_SUCCESS) && Added(w, r.w) == [Sent(OpenDS, Peek(w.replies))]
    ensures r.w.trace == w.trace + [Sent(OpenDS, Peek(w.replies))]
    ensures r.w.s == if r.ok then w.s.(selID := w.s.srcID, sourceOpened := true, capsNegotiated := false, imageCount := 0)
                     else w.s
  {
    var (rep, w1) := Dsm(w, OpenDS);
    if rep.rc == TWRC_SUCCESS then
      Res(w1.(s := w1.s.(selID := w1.s.srcID, sourceOpened := true, capsNegotiated := false, imageCount := 0)), true)
    else Res(w1, false)
  }

  /**
   * The first half of `openSource` for a source already open: disable it
   * (retrying once after an abort), then close it. It succeeds exactly when
   * the source ends closed; it never issues MSG_OPENDS, and while the source
   * stays enabled it does not try to close it.
   */
  function Collapse(w: World): (r: Res)
    requires w.s.sourceOpened
    ensures r.ok == !r.w.s.sourceOpened
    ensures r.w.s == w.s.(sourceEnabled := r.w.s.sourceEnabled, sourceOpened := r.w.s.sourceOpened, selID := r.w.s.selID)
    ensures r.ok ==> !r.w.s.sourceEnabled
    ensures r.w.memory == w.memory && r.w.freed == w.freed && r.w.nextHandle == w.nextHandle
    ensures NoneSent(Added(w, r.w), OpenDS)
    ensures r.w.s.sourceEnabled ==> NoneSent(Added(w, r.w), CloseDS)
  {
    var d := DisableWithRetry(w);
    if !d.ok then Res(d.w, false) else CloseSource(d.w)
  }

  /** One MSG_OPENDS from w0 is the last thing r did, and r succeeded exactly when it did. */
  predicate OpenedFrom(w0: World, r: Res) {
    r.ok == (Peek(w0.replies).rc == TWRC_SUCCESS) && r.w.trace == w0.trace + [Sent(OpenDS, Peek(w0.replies))]
  }

  /**
   * `openSource`: a source already open is first collapsed (disabled and
   * closed); if it stays enabled or will not close, the result is false and
   * MSG_OPENDS is not issued. Otherwise MSG_OPENDS.
   */
  function OpenSource(w: World): (r: Res)
    ensures r.ok ==> && r.w.s.sourceOpened && r.w.s.selID == w.s.srcID && !r.w.s.capsNegotiated
                     && r.w.s.imageCount == 0
    ensures !r.ok && r.w.s.sourceOpened ==> w.s.sourceOpened && NoneSent(Added(w, r.w), OpenDS)
    ensures !r.ok && r.w.s.sourceEnabled ==> NoneSent(Added(w, r.w), CloseDS)
    ensures r.w.s.dsmLoaded == w.s.dsmLoaded && r.w.s.dsmOpened == w.s.dsmOpened && r.w.s.srcID == w.s.srcID
    ensures r.w.s.transferReady == w.s.transferReady && (r.w.s.sourceEnabled ==> w.s.sourceEnabled)
    ensures r.w.memory == w.memory && r.w.freed == w.freed && r.w.nextHandle == w.nextHandle
    ensures !w.s.sourceOpened ==> OpenedFrom(w, r)
    ensures w.s.sourceOpened && !Collapse(w).ok ==> r == Res(Collapse(w).w, false)
    ensures w.s.sourceOpened && Collapse(w).ok ==> OpenedFrom(Collapse(w).w, r)
  {
    if w.s.sourceOpened then
      var c := Collapse(w);
      if !c.ok then c else OpenDs(c.w)
    else OpenDs(w)
  }

  /** A successful `openSource` ends with a MSG_OPENDS that returned TWRC_SUCCESS, whatever it tore down first. */
  lemma OpenSourceEndsOpened(w: World)
    ensures var r := OpenSource(w);
            r.ok ==> && 0 < |r.w.trace| && r.w.trace[|r.w.trace| - 1].Sent? && r.w.trace[|r.w.trace| - 1].call == OpenDS
                     && r.w.trace[|r.w.trace| - 1].reply.rc == TWRC_SUCCESS
  {
    var w0 := if w.s.sourceOpened then Collapse(w).w else w;
    if OpenSource(w).ok {
      assert OpenedFrom(w0, OpenSource(w));
    }
  }

  /** `short(v)`: the low 16 bits of v as a two's-complement number. */
  function Int16(v: nat): (r: int)
    ensures -0x8000 <= r < 0x8000 && (r - v) % 0x1_0000 == 0
  {
    var m := v % 0x1_0000;
    if m < 0x8000 then m else m - 0x1_0000
  }

  /** What `checkCapability` leaves: the new world and the count it read, if it read one. */
  datatype Counted = Counted(w: World, count: Option<int>)

  /**
   * `checkCapability`: MSG_GET of CAP_XFERCOUNT into a container the driver
   * allocates. A null container fails with nothing freed; otherwise the
   * container is locked (which may fail) and freed exactly once, and the
   * count read is its Item truncated to 16 bits.
   */
  function CheckCapability(w: World): (r: Counted)
    ensures r.w.s == w.s && r.w.nextHandle == w.nextHandle
    ensures Added(w, r.w) == [Sent(GetCapability, Peek(w.replies))]
    ensures Peek(w.replies).container.None? ==> r.count.None? && r.w.freed == w.freed
    ensures Peek(w.replies).container.Some? ==>
              && r.w.freed == w.freed + [Peek(w.replies).container.value]
              && (r.count.Some? ==> r.count.value == Int16(Peek(w.replies).item))
    ensures r.count.Some? <==> Peek(w.replies).container.Some? && Mem(w).0
    ensures r.w.memory == if Peek(w.replies).container.Some? then Mem(w).1.memory else w.memory
  {
    var (rep, w1) := Dsm(w, GetCapability);
    match rep.container
    case None => Counted(w1, None)
    case Some(h) =>
      var (locked, w2) := Mem(w1);
      Counted(w2.(freed := w2.freed + [h]), if locked then Some(Int16(rep.item)) else None)
  }

  /**
   * MSG_SET of CAP_XFERCOUNT to -1 and what follows it: TWRC_SUCCESS
   * negotiates a count of -1; TWRC_CHECKSTATUS negotiates the count
   * checkCapability reads, when it reads one; TWRC_FAILURE queries the
   * status and fails, and so does any other code. A failure leaves the
   * session as it was.
   */
  function SetCount(w: World): (r: Res)
    ensures r.w.nextHandle == w.nextHandle
    ensures Peek(w.replies).rc == TWRC_SUCCESS ==> r.ok && r.w.s == w.s.(capsNegotiated := true, imageCount := -1)
    ensures Peek(w.replies).rc == TWRC_CHECKSTATUS ==>
              var c := CheckCapability(Dsm(w, SetCapability).1);
              r.ok == c.count.Some? && (r.ok ==> r.w.s == w.s.(capsNegotiated := true, imageCount := c.count.value))
    ensures Peek(w.replies).rc !in {TWRC_SUCCESS, TWRC_CHECKSTATUS} ==> !r.ok && r.w.freed == w.freed
    ensures !r.ok ==> r.w.s == w.s
    ensures |w.freed| <= |r.w.freed| <= |w.freed| + 1 && r.w.freed[..|w.freed|] == w.freed
  {
    var (rep, w1) := Dsm(w, SetCapability);
    if rep.rc == TWRC_SUCCESS then Res(w1.(s := w1.s.(capsNegotiated := true, imageCount := -1)), true)
    else if rep.rc == TWRC_CHECKSTATUS then
      var c := CheckCapability(w1);
      if c.count.Some? then Res(c.w.(s := c.w.s.(capsNegotiated := true, imageCount := c.count.value)), true)
      else Res(c.w, false)
    else if rep.rc == TWRC_FAILURE then Res(Dsm(w1, GetStatus).1, false)
    else Res(w1, false)
  }

  /**
   * `negotiateCaps`: refused unless a source is open. A TW_ONEVALUE container
   * is allocated; when that fails the result is false and nothing is freed.
   * Otherwise, if it can be locked, the count is set (SetCount), and the
   * container is freed exactly once, as the last thing freed.
   */
  function NegotiateCaps(w: World): (r: Res)
    ensures !w.s.sourceOpened ==> r == Res(w, false)
    ensures !r.ok ==> r.w.s == w.s
    ensures r.ok ==> r.w.s.capsNegotiated && r.w.s == w.s.(capsNegotiated := true, imageCount := r.w.s.imageCount)
    ensures w.s.sourceOpened && !Mem(w).0 ==> !r.ok && r.w.freed == w.freed
    ensures w.s.sourceOpened && Mem(w).0 ==>
              && r.w.nextHandle == w.nextHandle + 1
              && |w.freed| < |r.w.freed| <= |w.freed| + 2 && r.w.freed[..|w.freed|] == w.freed
              && r.w.freed[|r.w.freed| - 1] == Handle(w.nextHandle)
  {
    if !w.s.sourceOpened then Res(w, false)
    else
      var (gotMemory, w1) := Mem(w);
      if !gotMemory then Res(w1, false)
      else
        var h := Handle(w1.nextHandle);
        var (locked, w2) := Mem(w1.(nextHandle := w1.nextHandle + 1));
        var n := if locked then SetCount(w2) else Res(w2, false);
        Res(n.w.(freed := n.w.freed + [h]), n.ok)
  }

  /**
   * What decides `negotiateCaps` once the container is allocated: a failed
   * lock fails with no driver call and the container freed; after a
   * successful lock the outcome, the session and the log are SetCount's.
   */
  lemma NegotiateCapsSetsCount(w: World)
    requires w.s.sourceOpened && Mem(w).0
    ensures var r := NegotiateCaps(w);
            var w1 := Mem(w).1.(nextHandle := w.nextHandle + 1);
            && (!Mem(w1).0 ==> !r.ok && r.w.freed == w.freed + [Handle(w.nextHandle)] && r.w.trace == w.trace)
            && (Mem(w1).0 ==> var n := SetCount(Mem(w1).1);
                  r.ok == n.ok && r.w.s == n.w.s && r.w.trace == n.w.trace
                  && r.w.freed == n.w.freed + [Handle(w.nextHandle)])
  {
    NegotiateCapsUnfold(w);
  }

  /** `negotiateCaps` after a successful allocation, one step at a time. */
  lemma NegotiateCapsUnfold(w: World)
    requires w.s.sourceOpened && Mem(w).0
    ensures var m := Mem(Mem(w).1.(nextHandle := w.nextHandle + 1));
            var n := if m.0 then SetCount(m.1) else Res(m.1, false);
            NegotiateCaps(w) == Res(n.w.(freed := n.w.freed + [Handle(w.nextHandle)]), n.ok)
  {
  }

  /**
   * The reply to MSG_SET decides `negotiateCaps` once the container is
   * allocated and locked: TWRC_SUCCESS negotiates -1, TWRC_CHECKSTATUS the
   * count checkCapability reads back, and any other code fails.
   */
  lemma NegotiateCapsOutcome(w: World)
    requires w.s.sourceOpened && Mem(w).0 && Mem(Mem(w).1).0
    ensures var r := NegotiateCaps(w);
            var w2 := Mem(Mem(w).1.(nextHandle := w.nextHandle + 1)).1;
            && (Peek(w.replies).rc == TWRC_SUCCESS ==> r.ok && r.w.s.imageCount == -1)
            && (Peek(w.replies).rc == TWRC_CHECKSTATUS ==>
                  var c := CheckCapability(Dsm(w2, SetCapability).1);
                  r.ok == c.count.Some? && (r.ok ==> r.w.s.imageCount == c.count.value))
            && (Peek(w.replies).rc !in {TWRC_SUCCESS, TWRC_CHECKSTATUS} ==> !r.ok)
  {
    NegotiateCapsSetsCount(w);
    var w2 := Mem(Mem(w).1.(nextHandle := w.nextHandle + 1)).1;
    assert Peek(w2.replies) == Peek(w.replies);
  }

  /**
   * `enableSource`: refused unless a source is open; otherwise MSG_ENABLEDS,
   * which enables the source when it succeeds. The result is whether the
   * source is now enabled.
   */
  function EnableSource(w: World): (r: Res)
    ensures !w.s.sourceOpened ==> r == Res(w, false)
    ensures w.s.sourceOpened ==> r.ok == r.w.s.sourceEnabled && Added(w, r.w) == [Sent(EnableDS, Peek(w.replies))]
    ensures r.w.s == w.s.(sourceEnabled := r.w.s.sourceEnabled)
    ensures w.s.sourceOpened && !w.s.sourceEnabled ==> r.ok == (Peek(w.replies).rc == TWRC_SUCCESS)
    ensures r.w.memory == w.memory && r.w.freed == w.freed && r.w.nextHandle == w.nextHandle
  {
    if !w.s.sourceOpened then Res(w, false)
    else
      var (rep, w1) := Dsm(w, EnableDS);
      var s1 := if rep.rc == TWRC_SUCCESS then w1.s.(sourceEnabled := true) else w1.s;
      Res(w1.(s := s1), s1.sourceEnabled)
  }

  /**
   * `doAcquire`: refused unless the manager is open and no source is; then
   * open the source, negotiate, and enable it, closing the source again
   * when it will not enable. A failed negotiation returns false with the
   * source left open.
   */
  function DoAcquire(w: World): (r: Res)
    ensures !w.s.dsmOpened || w.s.sourceOpened ==> r == Res(w, false)
    ensures r.ok ==> r.w.s.sourceOpened && r.w.s.capsNegotiated && r.w.s.sourceEnabled
    ensures w.s.dsmOpened && !w.s.sourceOpened && OpenSource(w).ok && !NegotiateCaps(OpenSource(w).w).ok ==>
              !r.ok && r.w == NegotiateCaps(OpenSource(w).w).w && r.w.s.sourceOpened
    ensures w.s.dsmOpened && !w.s.sourceOpened && OpenSource(w).ok && NegotiateCaps(OpenSource(w).w).ok
            && !EnableSource(NegotiateCaps(OpenSource(w).w).w).ok ==>
              !r.ok && r.w == CloseSource(EnableSource(NegotiateCaps(OpenSource(w).w).w).w).w
    ensures Chain(w.s) && !w.s.transferReady ==> Chain(r.w.s) && !r.w.s.transferReady
  {
    if !w.s.dsmOpened || w.s.sourceOpened then Res(w, false)
    else
      var o := OpenSource(w);
      if !o.ok then Res(o.w, false)
      else
        var n := NegotiateCaps(o.w);
        if !n.ok then Res(n.w, false)
        else
          var e := EnableSource(n.w);
          if !e.ok then Res(CloseSource(e.w).w, false) else e
  }

  /**
   * The `while(havePendingXfers)` loop of `setupAndXferImage`. Each round
   * gets the image info (its failure is an error exit) and the native image:
   * TWRC_XFERDONE hands the image to the callback and ends the transfer with
   * MSG_ENDXFER, the loop going on while that succeeds with transfers still
   * pending; TWRC_CANCEL and TWRC_FAILURE are error exits; any other code
   * goes round again. The result's `ok` is havePendingXfers at the exit:
   * true exactly on an error exit.
   */
  function XferLoop(w: World): (r: Res)
    ensures r.w.s == w.s && r.w.memory == w.memory && r.w.freed == w.freed && r.w.nextHandle == w.nextHandle
    ensures |w.trace| < |r.w.trace| && r.w.trace[..|w.trace|] == w.trace
    decreases |w.replies|
  {
    var (info, w1) := Dsm(w, GetImageInfo);
    if info.rc != TWRC_SUCCESS then Res(w1, true)
    else
      var (x, w2) := Dsm(w1, NativeXfer);
      if x.rc == TWRC_XFERDONE then
        var (e, w3) := Dsm(w2.(trace := w2.trace + [Delivered(x.image)]), EndXfer);
        if e.rc == TWRC_SUCCESS && e.count != 0 then XferLoop(w3) else Res(w3, false)
      else if x.rc == TWRC_CANCEL || x.rc == TWRC_FAILURE then Res(w2, true)
      else XferLoop(w2)
  }

  /**
   * `setupAndXferImage`: nothing when a transfer is already under way;
   * otherwise mark it ready, run the loop, abort the pending transfers after
   * an error exit, and clear the transfer-ready flag.
   */
  function SetupAndXferImage(w: World): (r: World)
    ensures w.s.transferReady ==> r == w
    ensures r.s == w.s.(transferReady := false) || (w.s.transferReady && r.s == w.s)
    ensures r.memory == w.memory && r.freed == w.freed && r.nextHandle == w.nextHandle
  {
    if w.s.transferReady then w
    else
      var l := XferLoop(w.(s := w.s.(transferReady := true)));
      var w2 := if l.ok then AbortXfer(l.w) else l.w;
      w2.(s := w2.s.(transferReady := false))
  }

  /** A close request or close notice: disable the source and, only if that succeeded, close it. */
  function CloseRequested(w: World): (r: World)
    ensures r.s == w.s.(sourceEnabled := r.s.sourceEnabled, sourceOpened := r.s.sourceOpened, selID := r.s.selID)
    ensures r.s.sourceOpened ==> w.s.sourceOpened
    ensures r.s.sourceEnabled ==> w.s.sourceEnabled && NoneSent(Added(w, r), CloseDS)
    ensures !r.s.sourceEnabled && w.s.sourceOpened ==> !NoneSent(Added(w, r), CloseDS)
    ensures r.memory == w.memory && r.freed == w.freed && r.nextHandle == w.nextHandle
  {
    var d := DisableSource(w);
    if d.ok then
      var c := CloseSource(d.w);
      assert w.s.sourceOpened ==> c.w.trace == d.w.trace + [Sent(CloseDS, Peek(d.w.replies))];
      assert w.s.sourceOpened ==> Added(w, c.w)[|Added(w, c.w)| - 1] == Sent(CloseDS, Peek(d.w.replies));
      c.w
    else d.w
  }

  /**
   * What `TWAINCheckEvent` does with the message the source returned: a
   * transfer-ready message runs the transfer, a close request or close notice
   * closes the source once it is disabled, and anything else is ignored.
   */
  function Dispatch(w: World, message: int): (r: World)
    ensures message !in {MSG_XFERREADY, MSG_CLOSEDSREQ, MSG_CLOSEDSOK} ==> r == w
    ensures message in {MSG_CLOSEDSREQ, MSG_CLOSEDSOK} && r.s.sourceEnabled ==> NoneSent(Added(w, r), CloseDS)
    ensures Chain(w.s) && !w.s.transferReady ==> Chain(r.s) && !r.s.transferReady
  {
    if message == MSG_XFERREADY then SetupAndXferImage(w)
    else if message == MSG_CLOSEDSREQ || message == MSG_CLOSEDSOK then CloseRequested(w)
    else w
  }

  /**
   * `TWAINCheckEvent`: with no source enabled, no call and false. Otherwise
   * MSG_PROCESSEVENT, whose message is dispatched. The result is whether the
   * event was the source's.
   */
  function CheckEvent(w: World): (r: Res)
    ensures !w.s.sourceEnabled ==> r == Res(w, false)
    ensures w.s.sourceEnabled ==> r.ok == (Peek(w.replies).rc != TWRC_NOTDSEVENT)
    ensures w.s.sourceEnabled ==> r.w == Dispatch(Dsm(w, ProcessEvent).1, Peek(w.replies).message)
    ensures Chain(w.s) && !w.s.transferReady ==> Chain(r.w.s) && !r.w.s.transferReady
  {
    if !w.s.sourceEnabled then Res(w, false)
    else
      var (rep, w1) := Dsm(w, ProcessEvent);
      Res(Dispatch(w1, rep.message), rep.rc != TWRC_NOTDSEVENT)
  }

  /**
   * What `shutdown` sends from an open manager, whatever the replies: the
   * disable first when a source is enabled, MSG_CLOSEDS just before the end
   * when a source is open, and MSG_CLOSEDSM last.
   */
  predicate ShutdownLog(s: Session, t: seq<Event>, first: Reply) {
    && 0 < |t| && t[|t| - 1].Sent? && t[|t| - 1].call == CloseDSM
    && (!s.sourceOpened ==> t == [Sent(CloseDSM, first)])
    && (s.sourceOpened ==> 1 < |t| && t[|t| - 2].Sent? && t[|t| - 2].call == CloseDS)
    && (s.sourceOpened && s.sourceEnabled ==> t[0] == Sent(DisableDS, first))
  }

  /**
   * `shutdown`: from a loaded manager, disable an enabled source (retrying
   * once after an abort), close an open source, close the manager with
   * MSG_CLOSEDSM and unload it, each step attempted whatever the one before
   * it did. The manager always ends closed and unloaded.
   */
  function Shutdown(w: World): (r: World)
    ensures !r.s.dsmLoaded && (w.s.dsmLoaded ==> !r.s.dsmOpened)
    ensures !w.s.dsmLoaded ==> r == w
    ensures r.memory == w.memory && r.freed == w.freed && r.nextHandle == w.nextHandle
    ensures w.s.dsmLoaded && !w.s.dsmOpened ==> r == w.(s := w.s.(dsmLoaded := false))
  {
    if !w.s.dsmLoaded then w
    else
      var w1 :=
        if w.s.dsmOpened then
          var w0 := if w.s.sourceOpened then CloseSource(DisableWithRetry(w).w).w else w;
          var w2 := Dsm(w0, CloseDSM).1;
          w2.(s := w2.s.(dsmOpened := false))
        else w;
      w1.(s := w1.s.(dsmLoaded := false))
  }

  /** Every image handed to the callback came from the native transfer just before it, and MSG_ENDXFER follows it. */
  predicate DeliveredInPlace(t: seq<Event>) {
    forall i :: 0 <= i < |t| && t[i].Delivered? ==>
      && 0 < i && t[i - 1].Sent? && t[i - 1].call == NativeXfer
      && t[i - 1].reply.rc == TWRC_XFERDONE && t[i - 1].reply.image == t[i].image
      && i + 1 < |t| && t[i + 1].Sent? && t[i + 1].call == EndXfer
  }

  /** Every native transfer that reported TWRC_XFERDONE is followed by the delivery of its image. */
  predicate DoneDelivered(t: seq<Event>) {
    forall i :: 0 <= i < |t| && t[i].Sent? && t[i].call == NativeXfer && t[i].reply.rc == TWRC_XFERDONE ==>
      i + 1 < |t| && t[i + 1] == Delivered(t[i].reply.image)
  }

  /** Some MSG_ENDXFER does not acknowledge a delivered image: the start of the abort sequence. */
  predicate Aborts(t: seq<Event>) {
    exists i :: 0 <= i < |t| && t[i].Sent? && t[i].call == EndXfer && (i == 0 || !t[i - 1].Delivered?)
  }

  /** An error exit of the transfer loop: a failed image-info query, or a native transfer cancelled or failed. */
  predicate ErrorEvent(e: Event) {
    e.Sent? && ((e.call == GetImageInfo && e.reply.rc != TWRC_SUCCESS) ||
                (e.call == NativeXfer && e.reply.rc in {TWRC_CANCEL, TWRC_FAILURE}))
  }

  /** Some event of t is an error exit. */
  predicate ErrorIn(t: seq<Event>) {
    exists i :: 0 <= i < |t| && ErrorEvent(t[i])
  }

  /** A log of complete transfer rounds: starting with an image-info query, deliveries in place, no abort and no reset. */
  predicate Rounds(t: seq<Event>) {
    && |t| > 0 && t[0].Sent? && t[0].call == GetImageInfo
    && DeliveredInPlace(t) && DoneDelivered(t) && !Aborts(t) && NoneSent(t, Reset)
  }

  /** A round after which the loop goes on: complete rounds, no error exit, not ending on a delivery. */
  predicate Continues(h: seq<Event>) {
    Rounds(h) && !ErrorIn(h) && !h[|h| - 1].Delivered?
  }

  /**
   * The log of a transfer loop that reported `ok`: complete rounds, pending
   * transfers reported exactly when it ended on an error, which is then its
   * last event, and never ending on a delivery.
   */
  predicate LoopShape(t: seq<Event>, ok: bool) {
    Rounds(t) && (ok <==> ErrorIn(t)) && (ok ==> ErrorEvent(t[|t| - 1])) && !t[|t| - 1].Delivered?
  }

  /** A round that does not end the loop followed by more rounds is a log of rounds, with the same error exits. */
  lemma RoundsCons(h: seq<Event>, q: seq<Event>, ok: bool)
    requires Continues(h) && LoopShape(q, ok)
    ensures LoopShape(h + q, ok)
  {
    var t := h + q;
    forall i | 0 <= i < |t| && t[i].Delivered?
      ensures && 0 < i && t[i - 1].Sent? && t[i - 1].call == NativeXfer
              && t[i - 1].reply.rc == TWRC_XFERDONE && t[i - 1].reply.image == t[i].image
              && i + 1 < |t| && t[i + 1].Sent? && t[i + 1].call == EndXfer
    {
      if i >= |h| {
        assert q[i - |h|].Delivered?;
      } else {
        assert h[i].Delivered?;
      }
    }
    forall i | 0 <= i < |t| && t[i].Sent? && t[i].call == NativeXfer && t[i].reply.rc == TWRC_XFERDONE
      ensures i + 1 < |t| && t[i + 1] == Delivered(t[i].reply.image)
    {
      if i >= |h| {
        assert q[i - |h|] == t[i];
      } else {
        assert h[i] == t[i];
      }
    }
    forall i | 0 <= i < |t| && t[i].Sent? && t[i].call == EndXfer
      ensures i != 0 && t[i - 1].Delivered?
    {
      if i >= |h| {
        assert q[i - |h|] == t[i];
        assert i - |h| != 0;
        assert q[i - |h| - 1] == t[i - 1];
      } else {
        assert h[i] == t[i];
      }
    }
    forall i | 0 <= i < |t|
      ensures !(t[i].Sent? && t[i].call == Reset)
    {
      if i >= |h| {
        assert q[i - |h|] == t[i];
      } else {
        assert h[i] == t[i];
      }
    }
    ConsErrors(h, q);
    assert (h + q)[|h + q| - 1] == q[|q| - 1];
  }

  /** Appending to a log without error exits adds exactly the error exits of the appended part. */
  lemma ConsErrors(h: seq<Event>, q: seq<Event>)
    requires !ErrorIn(h)
    ensures ErrorIn(h + q) <==> ErrorIn(q)
  {
    var t := h + q;
    forall i | 0 <= i < |h| ensures !ErrorEvent(t[i]) {
      assert t[i] == h[i];
    }
    if ErrorIn(t) {
      var i :| 0 <= i < |t| && ErrorEvent(t[i]);
      assert q[i - |h|] == t[i];
    }
    if ErrorIn(q) {
      var i :| 0 <= i < |q| && ErrorEvent(q[i]);
      assert t[|h| + i] == q[i];
    }
  }

  /** The events added by a step that added h and then went on to f. */
  lemma AddedAfter(w: World, m: World, h: seq<Event>, f: World)
    requires m.trace == w.trace + h && |m.trace| <= |f.trace| && f.trace[..|m.trace|] == m.trace
    ensures Added(w, f) == h + Added(m, f)
  {
    assert f.trace == m.trace + f.trace[|m.trace|..];
  }

  /** A delivered image acknowledged by MSG_ENDXFER is a complete round. */
  lemma DeliveredRound(info: Reply, x: Reply, e: Reply)
    requires info.rc == TWRC_SUCCESS && x.rc == TWRC_XFERDONE
    ensures Continues([Sent(GetImageInfo, info), Sent(NativeXfer, x), Delivered(x.image), Sent(EndXfer, e)])
  {
    var h := [Sent(GetImageInfo, info), Sent(NativeXfer, x), Delivered(x.image), Sent(EndXfer, e)];
    forall i | 0 <= i < |h| ensures !ErrorEvent(h[i]) { }
    assert !Aborts(h) by {
      forall i | 0 <= i < |h| && h[i].Sent? && h[i].call == EndXfer ensures i == 3 { }
    }
  }

  /** A native transfer that neither delivered nor failed is a complete round. */
  lemma PendingRound(info: Reply, x: Reply)
    requires info.rc == TWRC_SUCCESS && x.rc !in {TWRC_XFERDONE, TWRC_CANCEL, TWRC_FAILURE}
    ensures Continues([Sent(GetImageInfo, info), Sent(NativeXfer, x)])
  {
    var h := [Sent(GetImageInfo, info), Sent(NativeXfer, x)];
    forall i | 0 <= i < |h| ensures !ErrorEvent(h[i]) { }
  }

  /** The last round of a loop that returned no pending transfers. */
  lemma LastRound(info: Reply, x: Reply, e: Reply)
    requires info.rc == TWRC_SUCCESS && x.rc == TWRC_XFERDONE
    ensures LoopShape([Sent(GetImageInfo, info), Sent(NativeXfer, x), Delivered(x.image), Sent(EndXfer, e)], false)
  {
    DeliveredRound(info, x, e);
  }

  /** The last round of a loop that ended on a cancelled or failed native transfer. */
  lemma FailedRound(info: Reply, x: Reply)
    requires info.rc == TWRC_SUCCESS && x.rc in {TWRC_CANCEL, TWRC_FAILURE}
    ensures LoopShape([Sent(GetImageInfo, info), Sent(NativeXfer, x)], true)
  {
    var h := [Sent(GetImageInfo, info), Sent(NativeXfer, x)];
    assert ErrorEvent(h[1]);
  }

  /** The last round of a loop that ended on a failed image-info query. */
  lemma InfoFailed(info: Reply)
    requires info.rc != TWRC_SUCCESS
    ensures LoopShape([Sent(GetImageInfo, info)], true)
  {
    var h := [Sent(GetImageInfo, info)];
    assert ErrorEvent(h[0]);
  }

  /**
   * The transfer loop logs complete rounds: each image delivered right after
   * the TWRC_XFERDONE that produced it and right before its MSG_ENDXFER, and
   * no abort or reset. It reports pending transfers exactly when it ended on
   * an error, which is then its last event.
   */
  lemma {:induction false} XferLoopShape(w: World)
    ensures var l := XferLoop(w); LoopShape(Added(w, l.w), l.ok)
    decreases |w.replies|
  {
    var (info, w1) := Dsm(w, GetImageInfo);
    if info.rc == TWRC_SUCCESS {
      var (x, w2) := Dsm(w1, NativeXfer);
      if x.rc == TWRC_XFERDONE {
        var (e, w3) := Dsm(w2.(trace := w2.trace + [Delivered(x.image)]), EndXfer);
        var h := [Sent(GetImageInfo, info), Sent(NativeXfer, x), Delivered(x.image), Sent(EndXfer, e)];
        assert w3.trace == w.trace + h;
        if e.rc == TWRC_SUCCESS && e.count != 0 {
          XferLoopShape(w3);
          var l := XferLoop(w3);
          assert XferLoop(w) == l;
          AddedAfter(w, w3, h, l.w);
          DeliveredRound(info, x, e);
          RoundsCons(h, Added(w3, l.w), l.ok);
        } else {
          assert XferLoop(w) == Res(w3, false);
          assert Added(w, w3) == h;
          LastRound(info, x, e);
        }
      } else if x.rc != TWRC_CANCEL && x.rc != TWRC_FAILURE {
        var h := [Sent(GetImageInfo, info), Sent(NativeXfer, x)];
        assert w2.trace == w.trace + h;
        XferLoopShape(w2);
        var l := XferLoop(w2);
        assert XferLoop(w) == l;
        AddedAfter(w, w2, h, l.w);
        PendingRound(info, x);
        RoundsCons(h, Added(w2, l.w), l.ok);
      } else {
        assert XferLoop(w) == Res(w2, true);
        assert Added(w, w2) == [Sent(GetImageInfo, info), Sent(NativeXfer, x)];
        FailedRound(info, x);
      }
    } else {
      assert XferLoop(w) == Res(w1, true);
      assert Added(w, w1) == [Sent(GetImageInfo, info)];
      InfoFailed(info);
    }
  }

  /**
   * The log of one `setupAndXferImage`: deliveries in place, an abort sequence
   * exactly when the loop hit an error, and a MSG_RESET only as the very last
   * call, right after a MSG_ENDXFER that reported pending transfers.
   */
  predicate TransferShape(t: seq<Event>) {
    var delivered := DeliveredInPlace(t) && DoneDelivered(t);
    var aborted := Aborts(t) <==> ErrorIn(t);
    var reset := forall i :: 0 <= i < |t| && t[i].Sent? && t[i].call == Reset ==>
      && i == |t| - 1 && 0 < i && t[i - 1].Sent? && t[i - 1].call == EndXfer && t[i - 1].reply.count != 0;
    delivered && aborted && reset
  }

  /** A loop log without an error exit is a transfer log by itself. */
  lemma CleanLoop(t: seq<Event>)
    requires LoopShape(t, false)
    ensures TransferShape(t)
  {
  }

  /** Appending calls that are neither deliveries nor native transfers to a loop log keeps deliveries in place. */
  lemma AbortedDeliveries(t: seq<Event>, a: seq<Event>)
    requires LoopShape(t, true)
    requires forall k :: 0 <= k < |a| ==> a[k].Sent? && a[k].call != NativeXfer
    ensures DeliveredInPlace(t + a) && DoneDelivered(t + a)
  {
    var u := t + a;
    forall i | 0 <= i < |u| && u[i].Delivered?
      ensures && 0 < i && u[i - 1].Sent? && u[i - 1].call == NativeXfer
              && u[i - 1].reply.rc == TWRC_XFERDONE && u[i - 1].reply.image == u[i].image
              && i + 1 < |u| && u[i + 1].Sent? && u[i + 1].call == EndXfer
    {
      assert i < |t| && t[i] == u[i];
      assert i != |t| - 1;
    }
    forall i | 0 <= i < |u| && u[i].Sent? && u[i].call == NativeXfer && u[i].reply.rc == TWRC_XFERDONE
      ensures i + 1 < |u| && u[i + 1] == Delivered(u[i].reply.image)
    {
      assert i < |t| && t[i] == u[i];
    }
  }

  /** The abort sequence after a loop that ended on an error completes a transfer log. */
  lemma AbortedLoop(t: seq<Event>, a: seq<Event>)
    requires LoopShape(t, true)
    requires 0 < |a| <= 2 && a[0].Sent? && a[0].call == EndXfer
    requires |a| == 2 <==> a[0].reply.count != 0
    requires |a| == 2 ==> a[1].Sent? && a[1].call == Reset
    ensures TransferShape(t + a)
  {
    var u := t + a;
    AbortedDeliveries(t, a);
    assert u[|t|] == a[0] && u[|t| - 1] == t[|t| - 1];
    assert Aborts(u);
    assert ErrorIn(u) by {
      assert u[|t| - 1] == t[|t| - 1] && ErrorEvent(t[|t| - 1]);
    }
    forall i | 0 <= i < |t| ensures !(u[i].Sent? && u[i].call == Reset) {
      assert t[i] == u[i];
    }
    forall i | |t| <= i < |u| && u[i].Sent? && u[i].call == Reset
      ensures i == |u| - 1 && 0 < i && u[i - 1].Sent? && u[i - 1].call == EndXfer && u[i - 1].reply.count != 0
    {
      assert u[i] == a[i - |t|];
    }
  }

  /** The log of `setupAndXferImage`: the loop's, then the abort sequence's after an error exit. */
  lemma SetupLog(w: World)
    requires !w.s.transferReady
    ensures var w0 := w.(s := w.s.(transferReady := true)); var l := XferLoop(w0);
      Added(w, SetupAndXferImage(w)) == Added(w0, l.w) + if l.ok then Added(l.w, AbortXfer(l.w)) else []
  {
    var w0 := w.(s := w.s.(transferReady := true));
    var l := XferLoop(w0);
    var f := SetupAndXferImage(w);
    if l.ok {
      AddedAfter(w, l.w, Added(w0, l.w), f);
    } else {
      AddedAfter(w, l.w, Added(w0, l.w), f);
      assert Added(l.w, f) == [];
    }
  }

  /**
   * `setupAndXferImage`, when no transfer was under way, leaves a transfer
   * log: the abort sequence of `doAbortXfer` runs exactly when the loop ended
   * on an error, and MSG_RESET is sent only when MSG_ENDXFER left transfers
   * pending.
   */
  lemma SetupShape(w: World)
    requires !w.s.transferReady
    ensures TransferShape(Added(w, SetupAndXferImage(w)))
  {
    var w0 := w.(s := w.s.(transferReady := true));
    XferLoopShape(w0);
    SetupLog(w);
    var l := XferLoop(w0);
    if l.ok {
      AbortedLoop(Added(w0, l.w), Added(l.w, AbortXfer(l.w)));
    } else {
      CleanLoop(Added(w0, l.w));
    }
  }

  /**
   * `doAcquire` can end with the capabilities negotiated and the source
   * neither enabled nor closed: when MSG_ENABLEDS fails, the one MSG_CLOSEDS
   * that follows may fail too, and nothing tries again.
   */
  lemma AcquireStrandsCaps(w: World)
    requires w.s == Initial.(dsmLoaded := true, dsmOpened := true, srcID := Identity(1)) && w.memory == []
    requires w.replies == [NoReply.(rc := TWRC_SUCCESS), NoReply.(rc := TWRC_SUCCESS), NoReply, NoReply]
    ensures var r := DoAcquire(w);
            && !r.ok && Chain(r.w.s) && r.w.s.sourceOpened && r.w.s.capsNegotiated && !r.w.s.sourceEnabled
            && r.w.s.selID == Identity(1)
  {
    var o := OpenSource(w);
    assert o.ok && o.w.replies == w.replies[1..];
    var n := NegotiateCaps(o.w);
    assert n.ok && n.w.replies == w.replies[2..];
    var e := EnableSource(n.w);
    assert !e.ok && e.w.replies == w.replies[3..];
  }

  /**
   * From an open manager `shutdown` attempts every teardown call whatever
   * the earlier ones returned, only appending to the log: MSG_DISABLEDS first
   * for an enabled source, MSG_CLOSEDS for an open source even when it could
   * not be disabled, and MSG_CLOSEDSM last.
   */
  lemma ShutdownAttemptsEveryStep(w: World)
    requires w.s.dsmLoaded && w.s.dsmOpened
    ensures var r := Shutdown(w); r.trace == w.trace + Added(w, r) && ShutdownLog(w.s, Added(w, r), Peek(w.replies))
  {
    var r := Shutdown(w);
    if w.s.sourceOpened {
      var d := DisableWithRetry(w);
      DisableWithRetryLog(w);
      var x := d.w.trace[|w.trace|..];
      var c := CloseSource(d.w);
      assert c.w.trace == d.w.trace + [Sent(CloseDS, Peek(d.w.replies))];
      var t := x + [Sent(CloseDS, Peek(d.w.replies)), Sent(CloseDSM, Peek(c.w.replies))];
      assert r.trace == w.trace + t;
      assert Added(w, r) == t;
      assert w.s.sourceEnabled ==> t[0] == x[0];
    } else {
      assert r.trace == w.trace + [Sent(CloseDSM, Peek(w.replies))];
    }
  }

  /** A second `shutdown` does nothing. */
  lemma ShutdownTwice(w: World)
    ensures Shutdown(Shutdown(w)) == Shutdown(w)
  {
  }

  /**
   * `shutdown` does not clear the source flags when MSG_CLOSEDS fails: the
   * manager ends closed and unloaded with a source still marked open, and
   * from then on `doAcquire` refuses even after the manager is reloaded and
   * reopened.
   */
  lemma ShutdownStrandsSource(w: World)
    requires w.s == Initial.(dsmLoaded := true, dsmOpened := true, sourceOpened := true)
    requires w.replies == [NoReply, NoReply, NoReply.(rc := TWRC_SUCCESS)]
    ensures var r := Shutdown(w); r.s.sourceOpened && !r.s.dsmOpened && !r.s.dsmLoaded && !Chain(r.s)
    ensures var l := LoadSourceManager(Shutdown(w), "C:\\WINDOWS", true, true);
            var o := OpenSourceManager(l.w);
            o.ok && DoAcquire(o.w) == Res(o.w, false)
  {
    var d := DisableWithRetry(w);
    assert d == Res(w, true);
    var c := CloseSource(w);
    assert !c.ok && c.w.replies == w.replies[1..];
    var r := Shutdown(w);
    assert r.replies == [NoReply.(rc := TWRC_SUCCESS)];
  }
}
