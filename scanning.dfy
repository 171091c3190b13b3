/**
 * TWAINManager: the statics of scanning.cpp as the fields of one object and
 * its member functions as methods. Each method is proved to move the object
 * exactly as the TwainSpec function of the same name moves the World the
 * object stands for (Abs), so every property proved there holds of the class.
 *
 * The source manager's DSM_Entry and the Win32 memory calls are oracles: the
 * object holds the script of replies DSM_Entry will give and the outcomes of
 * the coming GlobalAlloc and GlobalLock calls. The log of calls, deliveries
 * and GlobalFree calls is ghost state.
 */
module Scanning {
  import opened Common
  import opened CachedFiles
  import opened ImageLists
  import opened TwainSpec

  class TWAINManager {
    /** `twain_loaded` .. `twain_transfer_ready`: TWAIN states 2 to 6. */
    var dsmLoaded: bool
    var dsmOpened: bool
    var sourceOpened: bool
    var capsNegotiated: bool
    var sourceEnabled: bool
    var transferReady: bool
    /** The selected source (`SrcID`) and the open one (`SelID`). */
    var srcID: Identity
    var selID: Identity
    /** `negotiatedImageCount` */
    var imageCount: int
    /** What DSM_Entry will answer to the coming calls. */
    var replies: seq<Reply>
    /** The outcomes of the coming GlobalAlloc and GlobalLock calls. */
    var memory: seq<bool>
    /** The HGLOBAL the next successful GlobalAlloc returns. */
    var nextHandle: nat
    /** Library loads, driver calls with their replies, and images handed to the callback. */
    ghost var trace: seq<Event>
    /** Every HGLOBAL passed to GlobalFree, in order. */
    ghost var freed: seq<Handle>

    /** The World this object stands for. */
    ghost function Abs(): World
      reads this
    {
      World(Session(dsmLoaded, dsmOpened, sourceOpened, capsNegotiated, sourceEnabled, transferReady,
                    srcID, selID, imageCount),
            replies, memory, nextHandle, trace, freed)
    }

    /** The statics at process start, with the driver's and the memory manager's scripts. */
    constructor(replies: seq<Reply>, memory: seq<bool>)
      ensures Abs() == World(Initial, replies, memory, 1, [], [])
    {
      dsmLoaded, dsmOpened, sourceOpened := false, false, false;
      capsNegotiated, sourceEnabled, transferReady := false, false, false;
      srcID, selID, imageCount := NoIdentity, NoIdentity, 0;
      this.replies, this.memory, nextHandle := replies, memory, 1;
      trace, freed := [], [];
    }

    /** `(*pDSM_Entry)(...)`: the next scripted reply, logged with the call. */
    method Entry(c: Call) returns (rep: Reply)
      modifies this
      ensures (rep, Abs()) == Dsm(old(Abs()), c)
    {
      rep := Peek(replies);
      replies := Rest(replies);
      trace := trace + [Sent(c, rep)];
    }

    /** `GlobalAlloc`: a fresh handle, or none when the allocation fails. */
    method GlobalAlloc() returns (h: Option<Handle>)
      modifies this
      ensures var (got, w1) := Mem(old(Abs()));
        if got then h == Some(Handle(w1.nextHandle)) && Abs() == w1.(nextHandle := w1.nextHandle + 1)
        else h == None && Abs() == w1
    {
      var got := true;
      if memory != [] {
        got, memory := memory[0], memory[1..];
      }
      if got {
        h := Some(Handle(nextHandle));
        nextHandle := nextHandle + 1;
      } else {
        h := None;
      }
    }

    /** `GlobalLock(h) != nullptr` */
    method GlobalLock(h: Handle) returns (locked: bool)
      modifies this
      ensures (locked, Abs()) == Mem(old(Abs()))
    {
      if memory == [] {
        locked := true;
      } else {
        locked, memory := memory[0], memory[1..];
      }
    }

    /** `GlobalFree(h)` */
    method GlobalFree(h: Handle)
      modifies this
      ensures Abs() == old(Abs()).(freed := old(freed) + [h])
    {
      freed := freed + [h];
    }

    /**
     * `loadSourceManager`: the Windows directory and whether LoadLibraryA and
     * GetProcAddress succeed are parameters.
     */
    method LoadSourceManager(windowsDir: string, loads: bool, hasEntry: bool) returns (r: bool)
      modifies this
      ensures Res(Abs(), r) == TwainSpec.LoadSourceManager(old(Abs()), windowsDir, loads, hasEntry)
    {
      if !dsmLoaded {
        var path := PathConcatenate(windowsDir, "TWAIN_32.DLL");
        trace := trace + [Load(path)];
        if loads {
          if hasEntry {
            dsmLoaded := true;
          }
        }
      }
      r := dsmLoaded;
    }

    /** `openSourceManager` */
    method OpenSourceManager() returns (r: bool)
      modifies this
      ensures Res(Abs(), r) == TwainSpec.OpenSourceManager(old(Abs()))
    {
      if !dsmLoaded {
        return false;
      }
      if !dsmOpened {
        var rep := Entry(OpenDSM);
        if rep.rc == TWRC_SUCCESS {
          dsmOpened := true;
        }
      }
      r := dsmOpened;
    }

    /** `selectSource` */
    method SelectSource() returns (r: bool)
      modifies this
      ensures Res(Abs(), r) == TwainSpec.SelectSource(old(Abs()))
    {
      if !dsmOpened {
        return false;
      }
      var rep := Entry(UserSelect);
      if rep.rc == TWRC_SUCCESS {
        srcID := rep.identity;
        r := true;
      } else if rep.rc == TWRC_CANCEL {
        r := true;
      } else {
        r := false;
      }
    }

    /** `openSource` */
    method OpenSource() returns (r: bool)
      modifies this
      ensures Res(Abs(), r) == TwainSpec.OpenSource(old(Abs()))
    {
      if sourceOpened {
        if sourceEnabled {
          var disabled := DisableSource();
          if !disabled {
            AbortXfer();
            disabled := DisableSource();
            if !disabled {
              return false;
            }
          }
        }
        var closed := CloseSource();
        if !closed {
          return false;
        }
      }
      var rep := Entry(OpenDS);
      if rep.rc == TWRC_SUCCESS {
        selID := srcID;
        sourceOpened := true;
        capsNegotiated := false;
        imageCount := 0;
        r := true;
      } else {
        r := false;
      }
    }

    /** `closeSource` */
    method CloseSource() returns (r: bool)
      modifies this
      ensures Res(Abs(), r) == TwainSpec.CloseSource(old(Abs()))
    {
      if !sourceOpened {
        return true;
      }
      var rep := Entry(CloseDS);
      if rep.rc == TWRC_SUCCESS {
        sourceOpened := false;
        selID := NoIdentity;
        r := true;
      } else {
        r := false;
      }
    }

    /**
     * `checkCapability(hWnd, count)`: `ok` is the result and `count` the
     * value written through the reference when `ok` holds.
     */
    method CheckCapability() returns (ok: bool, count: int)
      modifies this
      ensures Counted(Abs(), if ok then Some(count) else None) == TwainSpec.CheckCapability(old(Abs()))
    {
      var rep := Entry(GetCapability);
      match rep.container
      case None =>
        ok, count := false, 0;
      case Some(h) =>
        var locked := GlobalLock(h);
        if locked {
          count := Int16(rep.item);
          ok := true;
        } else {
          ok, count := false, 0;
        }
        GlobalFree(h);
    }

    /** The MSG_SET of CAP_XFERCOUNT in `negotiateCaps` and the branches on its return code. */
    method SetCount() returns (r: bool)
      modifies this
      ensures Res(Abs(), r) == TwainSpec.SetCount(old(Abs()))
    {
      r := false;
      var rep := Entry(SetCapability);
      if rep.rc == TWRC_SUCCESS {
        capsNegotiated := true;
        imageCount := -1;
        r := true;
      } else if rep.rc == TWRC_CHECKSTATUS {
        var count;
        r, count := CheckCapability();
        if r {
          capsNegotiated := true;
          imageCount := count;
        }
      } else if rep.rc == TWRC_FAILURE {
        var _ := Entry(GetStatus);
        r := false;
      }
    }

    /** `negotiateCaps` */
    method NegotiateCaps() returns (r: bool)
      modifies this
      ensures Res(Abs(), r) == TwainSpec.NegotiateCaps(old(Abs()))
    {
      if !sourceOpened {
        return false;
      }
      r := false;
      ghost var w := Abs();
      var container := GlobalAlloc();
      if container.Some? {
        ghost var w1 := Abs();
        assert Mem(w).0 && w1 == Mem(w).1.(nextHandle := Mem(w).1.nextHandle + 1) && container.value == Handle(w.nextHandle);
        var locked := GlobalLock(container.value);
        ghost var w2 := Abs();
        if locked {
          r := SetCount();
        }
        assert Res(Abs(), r) == if locked then TwainSpec.SetCount(w2) else Res(w2, false);
        GlobalFree(container.value);
      }
    }

    /** `enableSource` */
    method EnableSource() returns (r: bool)
      modifies this
      ensures Res(Abs(), r) == TwainSpec.EnableSource(old(Abs()))
    {
      if !sourceOpened {
        return false;
      }
      var rep := Entry(EnableDS);
      if rep.rc == TWRC_SUCCESS {
        sourceEnabled := true;
      }
      r := sourceEnabled;
    }

    /** `doAcquire` */
    method DoAcquire() returns (r: bool)
      modifies this
      ensures Res(Abs(), r) == TwainSpec.DoAcquire(old(Abs()))
    {
      if !dsmOpened {
        return false;
      }
      if sourceOpened {
        return false;
      }
      r := OpenSource();
      if !r {
        return false;
      }
      r := NegotiateCaps();
      if !r {
        return false;
      }
      r := EnableSource();
      if !r {
        var _ := CloseSource();
      }
    }

    /** `disableSource` */
    method DisableSource() returns (r: bool)
      modifies this
      ensures Res(Abs(), r) == TwainSpec.DisableSource(old(Abs()))
    {
      if !sourceEnabled {
        return true;
      }
      var rep := Entry(DisableDS);
      if rep.rc == TWRC_SUCCESS {
        sourceEnabled := false;
      }
      r := !sourceEnabled;
    }

    /** `updateImageInfo`: MSG_GET of DAT_IMAGEINFO, successful exactly on TWRC_SUCCESS. */
    method UpdateImageInfo() returns (r: bool)
      modifies this
      ensures var (rep, w1) := Dsm(old(Abs()), GetImageInfo); r == (rep.rc == TWRC_SUCCESS) && Abs() == w1
    {
      var rep := Entry(GetImageInfo);
      r := rep.rc == TWRC_SUCCESS;
    }

    /** `doAbortXfer` */
    method AbortXfer()
      modifies this
      ensures Abs() == TwainSpec.AbortXfer(old(Abs()))
    {
      var pending := Entry(EndXfer);
      if pending.count != 0 {
        var _ := Entry(Reset);
      }
    }

    /**
     * `setupAndXferImage`: the callback's receipt of each image is the
     * Delivered event it adds to the log.
     */
    method SetupAndXferImage()
      modifies this
      ensures Abs() == TwainSpec.SetupAndXferImage(old(Abs()))
    {
      if transferReady {
        return;
      }
      transferReady := true;
      ghost var w0 := Abs();
      var havePendingXfers := true;
      while havePendingXfers
        invariant transferReady && Abs().s == w0.s
        invariant havePendingXfers ==> XferLoop(w0) == XferLoop(Abs())
        invariant !havePendingXfers ==> XferLoop(w0) == Res(Abs(), false)
        decreases havePendingXfers, |replies|
      {
        ghost var w := Abs();
        var gotInfo := UpdateImageInfo();
        if gotInfo {
          var native := Entry(NativeXfer);
          if native.rc == TWRC_XFERDONE {
            trace := trace + [Delivered(native.image)];
            var pending := Entry(EndXfer);
            if pending.rc == TWRC_SUCCESS {
              if pending.count == 0 {
                havePendingXfers := false;
              }
            } else {
              havePendingXfers := false;
            }
          } else if native.rc == TWRC_CANCEL {
            break;
          } else if native.rc == TWRC_FAILURE {
            break;
          }
        } else {
          break;
        }
      }
      assert XferLoop(w0) == Res(Abs(), havePendingXfers);
      if havePendingXfers {
        AbortXfer();
      }
      transferReady := false;
    }

    /**
     * `TWAINCheckEvent`: the Windows message itself is not modelled; the
     * driver's reply carries the TW_EVENT message it would write back.
     */
    method CheckEvent() returns (r: bool)
      modifies this
      ensures Res(Abs(), r) == TwainSpec.CheckEvent(old(Abs()))
    {
      if !sourceEnabled {
        return false;
      }
      var rep := Entry(ProcessEvent);
      if rep.message == MSG_XFERREADY {
        SetupAndXferImage();
      } else if rep.message == MSG_CLOSEDSREQ || rep.message == MSG_CLOSEDSOK {
        var disabled := DisableSource();
        if disabled {
          var _ := CloseSource();
        }
      }
      r := rep.rc != TWRC_NOTDSEVENT;
    }

    /** `shutdown` */
    method Shutdown()
      modifies this
      ensures Abs() == TwainSpec.Shutdown(old(Abs()))
    {
      if dsmLoaded {
        if dsmOpened {
          if sourceOpened {
            if sourceEnabled {
              var disabled := DisableSource();
              if !disabled {
                AbortXfer();
                disabled := DisableSource();
              }
            }
            var _ := CloseSource();
          }
          var _ := Entry(CloseDSM);
          dsmOpened := false;
        }
        dsmLoaded := false;
      }
    }
  }
}
