/**
 * The viewer's image list: the scanned images in scan order, the image being
 * viewed, and the "previous image" and "next image" commands of the View menu.
 *
 * Navigation is first described on the sequence of images (Next, Prev and the
 * two enablement predicates); the Viewer class holds the program's statics
 * (the image list, the current image, whether a modeless effect dialog is
 * open, and the enabled state of the commands) and its methods are proved to
 * move them the way those functions say.
 */
module ImageNavigation {
  import opened Common
  import opened DLLists
  import opened ImageLists

  /** The position of x in xs: its first occurrence. */
  function IndexOf(xs: seq<ImageNode>, x: ImageNode): (i: nat)
    requires x in xs
    ensures i < |xs| && xs[i] == x && x !in xs[..i]
  {
    if xs[0] == x then 0 else 1 + IndexOf(xs[1..], x)
  }

  /** The image after `cur`, or `cur` itself when it is the last one or there is none. */
  function Next(images: seq<ImageNode>, cur: ImageNode?): ImageNode? {
    if cur != null && cur in images && IndexOf(images, cur) + 1 < |images| then images[IndexOf(images, cur) + 1]
    else cur
  }

  /** The image before `cur`, or `cur` itself when it is the first one or there is none. */
  function Prev(images: seq<ImageNode>, cur: ImageNode?): ImageNode? {
    if cur != null && cur in images && 0 < IndexOf(images, cur) then images[IndexOf(images, cur) - 1]
    else cur
  }

  /** "Previous image" is enabled: no effect dialog, and an image before the current one. */
  predicate PrevEnabled(dialog: bool, images: seq<ImageNode>, cur: ImageNode?) {
    !dialog && cur != null && cur in images && 0 < IndexOf(images, cur)
  }

  /** "Next image" is enabled: no effect dialog, and an image after the current one. */
  predicate NextEnabled(dialog: bool, images: seq<ImageNode>, cur: ImageNode?) {
    !dialog && cur != null && cur in images && IndexOf(images, cur) + 1 < |images|
  }

  /** In a list without repetitions the position of the i-th image is i. */
  lemma {:induction false} IndexOfAt(xs: seq<ImageNode>, i: nat)
    requires Distinct(xs) && i < |xs|
    ensures IndexOf(xs, xs[i]) == i
  {
  }

  /** An enabled command moves: each command is enabled exactly when it would change the image. */
  lemma EnabledMoves(images: seq<ImageNode>, cur: ImageNode?)
    requires Distinct(images)
    ensures PrevEnabled(false, images, cur) <==> Prev(images, cur) != cur
    ensures NextEnabled(false, images, cur) <==> Next(images, cur) != cur
  {
    if cur != null && cur in images {
      var i := IndexOf(images, cur);
      if 0 < i {
        assert images[i - 1] != images[i];
      }
      if i + 1 < |images| {
        assert images[i + 1] != images[i];
      }
    }
  }

  /** Next undoes Prev and Prev undoes Next, whenever they move. */
  lemma NextPrev(images: seq<ImageNode>, cur: ImageNode?)
    requires Distinct(images)
    ensures PrevEnabled(false, images, cur) ==> Next(images, Prev(images, cur)) == cur
    ensures NextEnabled(false, images, cur) ==> Prev(images, Next(images, cur)) == cur
  {
    if cur != null && cur in images {
      var i := IndexOf(images, cur);
      if 0 < i {
        IndexOfAt(images, i - 1);
      }
      if i + 1 < |images| {
        IndexOfAt(images, i + 1);
      }
    }
  }

  /** A new image appended and made current has no successor, and a predecessor unless it is the only one. */
  lemma AppendedIsLast(images: seq<ImageNode>, x: ImageNode)
    requires Distinct(images) && x !in images
    ensures !NextEnabled(false, images + [x], x)
    ensures PrevEnabled(false, images + [x], x) <==> |images| > 0
  {
    DistinctInsert(images, |images|, x);
    assert images[..|images|] + [x] + images[|images|..] == images + [x];
    IndexOfAt(images + [x], |images|);
  }

  /**
   * The walk of `ScanMgr_GotoPrevImage`: from the head, follow dllNext until
   * the item whose successor is `target`, the item at position c.
   */
  method ItemBefore(list: DLList<ImageNode>, ghost c: nat, target: DLListItem<ImageNode>) returns (link: DLListItem<ImageNode>)
    requires list.Valid() && 0 < c < |list.items| && list.items[c] == target
    ensures link == list.items[c - 1]
  {
    list.SlotTarget(0);
    var walk := list.head;
    ghost var j := 0;
    while walk != null && walk.dllNext != target
      invariant 0 <= j < c && walk == list.items[j]
      decreases c - j
    {
      list.LinkedAt(j);
      walk := walk.dllNext;
      j := j + 1;
    }
    list.LinkedAt(j);
    assert list.items[j + 1] == list.items[c];
    link := walk;
  }

  /** The program's image statics and the View menu's navigation commands. */
  class Viewer {
    /** `gImageList` */
    const imageList: ImageList
    /** `gCurrentImage` */
    var current: ImageNode?
    /** `pEffectDlg != nullptr`: a modeless effect dialog is open. */
    var effectDialogOpen: bool
    /** Whether ID_VIEW_PREVIOUSIMAGE and ID_VIEW_NEXTIMAGE are enabled. */
    var prevCommand: bool
    var nextCommand: bool
    /** Whether the GDI+ edit commands are enabled. */
    var editCommands: bool

    /** No images, none current, every command disabled. */
    constructor()
      ensures Valid() && imageList.images == [] && current == null && !effectDialogOpen
      ensures !prevCommand && !nextCommand && !editCommands
    {
      imageList := new ImageList();
      current := null;
      effectDialogOpen := false;
      prevCommand, nextCommand, editCommands := false, false, false;
    }

    /** The image list is valid and the viewer is none of the objects its images own. */
    ghost predicate ListValid()
      reads imageList, imageList.list, imageList.list.Elems(), imageList.Images(), imageList.owner.Keys
    {
      var list_ok := imageList.Valid();
      list_ok && this !in imageList.owner
    }

    /** The image list is valid and the current image, if any, is one of its images. */
    ghost predicate Valid()
      reads this`current, imageList, imageList.list, imageList.list.Elems(), imageList.Images(), imageList.owner.Keys
    {
      var list_ok := ListValid();
      list_ok && (current == null || current in imageList.images)
    }

    /**
     * `ScanMgr_UpdateViewImgCmds`: with an effect dialog open both commands
     * are disabled; otherwise "previous" is enabled when the current image is
     * not the head of the list and "next" when it has a successor.
     */
    method UpdateViewImgCmds()
      requires Valid()
      modifies this`prevCommand, this`nextCommand
      ensures prevCommand == PrevEnabled(effectDialogOpen, imageList.images, current)
      ensures nextCommand == NextEnabled(effectDialogOpen, imageList.images, current)
    {
      if effectDialogOpen {
        prevCommand, nextCommand := false, false;
        return;
      }
      if current != null {
        var images, list := imageList.images, imageList.list;
        var i := IndexOf(images, current);
        IndexOfAt(images, 0);
        assert list.head.dllObject == Some(images[0]);
        prevCommand := list.head.dllObject != Some(current);
        assert images[i].links == list.items[i];
        nextCommand := current.links.dllNext != null;
      } else {
        prevCommand, nextCommand := false, false;
      }
    }

    /**
     * `ScanMgr_SetCurrentImage(node)`: view `node`, update the navigation
     * commands, and enable the edit commands exactly when there is an image.
     */
    method SetCurrentImage(node: ImageNode?)
      requires ListValid() && (node == null || node in imageList.images)
      modifies this`current, this`prevCommand, this`nextCommand, this`editCommands
      ensures Valid() && current == node && editCommands == (node != null)
      ensures prevCommand == PrevEnabled(effectDialogOpen, imageList.images, current)
      ensures nextCommand == NextEnabled(effectDialogOpen, imageList.images, current)
    {
      current := node;
      imageList.Framed();
      UpdateViewImgCmds();
      editCommands := current != null;
      imageList.Framed();
    }

    /**
     * `ScanMgr_ClearImageList`: delete the head image until the list is
     * empty, then view no image. Every image's scanner bitmap is deleted.
     */
    method ClearImageList() returns (ghost handles: seq<Option<HBitmap>>)
      requires ListValid()
      modifies this`current, this`prevCommand, this`nextCommand, this`editCommands
      modifies imageList, imageList.list, imageList.list.Elems(), imageList.Images(), imageList.owner.Keys
      ensures Valid() && imageList.images == [] && current == null
      ensures !prevCommand && !nextCommand && !editCommands
      ensures handles == old(HandlesOf(imageList.images))
    {
      handles := imageList.Clear();
      SetCurrentImage(null);
    }

    /**
     * `ScanMgr_AddNewImage(hBitmap)`: append a new image holding the
     * scanner's bitmap handle and view it.
     */
    method AddNewImage(h: Option<HBitmap>)
      requires ListValid()
      modifies this`current, this`prevCommand, this`nextCommand, this`editCommands
      modifies imageList, imageList.list, imageList.list.Elems()
      ensures Valid() && current != null && imageList.images == old(imageList.images) + [current] && fresh(current)
      ensures current.hBitmap == h && current.Abs() == Undo(None, [])
      ensures editCommands && !nextCommand && prevCommand == (!effectDialogOpen && |old(imageList.images)| > 0)
    {
      var newImage := imageList.NewAtTail(h);
      SetCurrentImage(newImage);
      AppendedIsLast(old(imageList.images), newImage);
    }

    /**
     * `ScanMgr_GotoNextImage`: when the current image has a successor, view
     * it; otherwise nothing changes.
     */
    method GotoNextImage()
      requires Valid()
      modifies this`current, this`prevCommand, this`nextCommand, this`editCommands
      ensures Valid() && current == Next(imageList.images, old(current))
      ensures current != old(current) ==>
        (editCommands && prevCommand == PrevEnabled(effectDialogOpen, imageList.images, current)
                      && nextCommand == NextEnabled(effectDialogOpen, imageList.images, current))
      ensures current == old(current) ==> unchanged(this`prevCommand, this`nextCommand, this`editCommands)
    {
      var images, list := imageList.images, imageList.list;
      if current != null && current.links.dllNext != null {
        var i := IndexOf(images, current);
        assert list.items[i] == images[i].links;
        list.LinkedAt(i);
        assert list.items[i + 1] == images[i + 1].links;
        SetCurrentImage(current.links.dllNext.dllObject.value);
      } else if current != null {
        var i := IndexOf(images, current);
        assert list.items[i] == images[i].links;
        list.LinkedAt(i);
      }
    }

    /**
     * `ScanMgr_GotoPrevImage`: unless there is no current image or it is the
     * head, walk from the head to the item whose dllNext is the current
     * image's links and view that item's image.
     */
    method GotoPrevImage()
      requires Valid()
      modifies this`current, this`prevCommand, this`nextCommand, this`editCommands
      ensures Valid() && current == Prev(imageList.images, old(current))
      ensures current != old(current) ==>
        (editCommands && prevCommand == PrevEnabled(effectDialogOpen, imageList.images, current)
                      && nextCommand == NextEnabled(effectDialogOpen, imageList.images, current))
      ensures current == old(current) ==> unchanged(this`prevCommand, this`nextCommand, this`editCommands)
    {
      if current == null {
        return;
      }
      var images, list := imageList.images, imageList.list;
      var c := IndexOf(images, current);
      IndexOfAt(images, 0);
      assert list.head == list.items[0] == images[0].links;
      if list.head.dllObject == Some(current) {
        return;
      }
      assert list.items[c] == current.links;
      var link := ItemBefore(list, c, current.links);
      assert link.dllObject == Some(images[c - 1]);
      SetCurrentImage(link.dllObject.value);
    }
  }
}
