/**
 * The image list's nodes: an ImageNode holds a scanned image (the device's
 * HBITMAP and the current GDI+ bitmap) and a stack of earlier versions of the
 * GDI+ bitmap for undo, threaded on its `prevImages` list of GDIPImageNodes.
 *
 * The undo stack is first described on values (Undo, BackedUp, Restore); the
 * classes' methods are proved to move their state the way those functions do.
 * Deleting an object runs its destructor, modelled as a method `Destroy`, whose
 * ghost result lists the bitmaps it deletes.
 */
module ImageLists {
  import opened Common
  import opened DLLists

  /** A GDI+ bitmap object, known by its address. */
  datatype Bitmap = Bitmap(address: nat)

  /** A GDI bitmap handle as the scanner hands it over. */
  datatype HBitmap = HBitmap(handle: nat)

  /** An image's undo state: its current GDI+ bitmap and its backups, most recent first. */
  datatype Undo = Undo(current: Option<Bitmap>, backups: seq<Option<Bitmap>>)

  /** What restoreBackup reports: success, the new undo state and the bitmap it deleted. */
  datatype Restored = Restored(ok: bool, after: Undo, deleted: Option<Bitmap>)

  /** `backup()`: nothing without a current bitmap; otherwise its copy `clone` goes on top. */
  function BackedUp(u: Undo, clone: Option<Bitmap>): Undo {
    if u.current.None? then u else Undo(u.current, [clone] + u.backups)
  }

  /**
   * `restoreBackup()`: without backups, false and no change; otherwise the
   * current bitmap is deleted and the most recent backup takes its place.
   */
  function Restore(u: Undo): Restored {
    if |u.backups| == 0 then Restored(false, u, None)
    else Restored(true, Undo(u.backups[0], u.backups[1..]), u.current)
  }

  /** The bitmaps present among xs, in order. */
  function Present(xs: seq<Option<Bitmap>>): (r: seq<Bitmap>)
    ensures |r| <= |xs|
    ensures forall b :: b in r <==> Some(b) in xs
  {
    if xs == [] then []
    else (if xs[0].Some? then [xs[0].value] else []) + Present(xs[1..])
  }

  /** Present distributes over concatenation. */
  lemma {:induction false} PresentAppend(xs: seq<Option<Bitmap>>, ys: seq<Option<Bitmap>>)
    ensures Present(xs + ys) == Present(xs) + Present(ys)
    decreases |xs|
  {
    if xs == [] {
      assert xs + ys == ys;
    } else {
      assert (xs + ys)[0] == xs[0] && (xs + ys)[1..] == xs[1..] + ys;
      PresentAppend(xs[1..], ys);
    }
  }

  /** The bitmaps an image owns: its current one, then every backup's. */
  function Owned(u: Undo): seq<Bitmap> {
    Present([u.current] + u.backups)
  }

  /** restoreBackup succeeds exactly when there is a backup, and then there is one fewer. */
  lemma RestoreSucceeds(u: Undo)
    ensures Restore(u).ok <==> |u.backups| > 0
    ensures Restore(u).ok ==> |Restore(u).after.backups| == |u.backups| - 1
    ensures !Restore(u).ok ==> Restore(u).after == u && Restore(u).deleted == None
  {
  }

  /**
   * A backup followed by restoreBackup leaves the backups as they were, with
   * the copy as the current bitmap and the bitmap it was copied from deleted.
   */
  lemma RestoreUndoesBackup(u: Undo, clone: Option<Bitmap>)
    requires u.current.Some?
    ensures Restore(BackedUp(u, clone)) == Restored(true, Undo(clone, u.backups), u.current)
  {
    assert ([clone] + u.backups)[1..] == u.backups;
  }

  /** Without a current bitmap backup changes nothing, so restoreBackup sees the old backups. */
  lemma BackupWithoutBitmap(u: Undo, clone: Option<Bitmap>)
    requires u.current.None?
    ensures BackedUp(u, clone) == u
    ensures Restore(BackedUp(u, clone)).deleted == None
  {
  }

  /** n backups taken while a bitmap is current. */
  function Backups(u: Undo, clones: seq<Option<Bitmap>>): Undo
    decreases |clones|
  {
    if clones == [] then u else Backups(BackedUp(u, clones[0]), clones[1..])
  }

  /** n restores; the deleted bitmaps are listed in deletion order. */
  function Restores(u: Undo, n: nat): (Undo, seq<Option<Bitmap>>)
    decreases n
  {
    if n == 0 then (u, [])
    else
      var r := Restore(u);
      var (v, ds) := Restores(r.after, n - 1);
      (v, [r.deleted] + ds)
  }

  /** The reverse of a sequence. */
  function Reverse<X>(xs: seq<X>): (r: seq<X>)
    ensures |r| == |xs|
  {
    if xs == [] then [] else Reverse(xs[1..]) + [xs[0]]
  }

  /** Backups pile up most recent first. */
  lemma {:induction false} BackupsStack(u: Undo, clones: seq<Option<Bitmap>>)
    requires u.current.Some?
    ensures Backups(u, clones) == Undo(u.current, Reverse(clones) + u.backups)
    decreases |clones|
  {
    if clones != [] {
      var v := BackedUp(u, clones[0]);
      BackupsStack(v, clones[1..]);
      assert Reverse(clones[1..]) + ([clones[0]] + u.backups) == Reverse(clones) + u.backups;
    }
  }

  /**
   * The backups behave as a stack: restoring as often as there were backups
   * returns to the old backups, with the first copy current, and deletes the
   * current bitmap and then every copy but the first, most recent first.
   */
  lemma {:induction false} RestoresUnwind(u: Undo, clones: seq<Option<Bitmap>>)
    requires u.current.Some? && clones != []
    ensures Restores(Backups(u, clones), |clones|) ==
              (Undo(clones[0], u.backups), [u.current] + Reverse(clones[1..]))
    decreases |clones|
  {
    BackupsStack(u, clones);
    LiftRestores(u.current, clones, u.backups);
  }

  /** Restoring |xs| times from current c over backups xs ++ rest. */
  lemma {:induction false} LiftRestores(c: Option<Bitmap>, clones: seq<Option<Bitmap>>, rest: seq<Option<Bitmap>>)
    requires clones != []
    ensures Restores(Undo(c, Reverse(clones) + rest), |clones|) ==
              (Undo(clones[0], rest), [c] + Reverse(clones[1..]))
    decreases |clones|
  {
    var n := |clones|;
    var top := clones[n - 1];
    var below := Reverse(clones[..n - 1]);
    assert Reverse(clones) == [top] + below by {
      ReverseSnoc(clones[..n - 1], top);
      assert clones[..n - 1] + [top] == clones;
    }
    assert ([top] + below + rest)[0] == top;
    assert ([top] + below + rest)[1..] == below + rest;
    if n == 1 {
      assert clones[1..] == [];
    } else {
      LiftRestores(top, clones[..n - 1], rest);
      assert clones[..n - 1][0] == clones[0];
      assert Reverse(clones[1..]) == [top] + Reverse(clones[..n - 1][1..]) by {
        ReverseSnoc(clones[1..n - 1], top);
        assert clones[1..n - 1] + [top] == clones[1..];
        assert clones[..n - 1][1..] == clones[1..n - 1];
      }
    }
  }

  /** Reversing xs ++ [x] puts x first. */
  lemma {:induction false} ReverseSnoc<X>(xs: seq<X>, x: X)
    ensures Reverse(xs + [x]) == [x] + Reverse(xs)
    decreases |xs|
  {
    if xs == [] {
      assert Reverse([x]) == Reverse([x][1..]) + [x];
    } else {
      assert (xs + [x])[0] == xs[0] && (xs + [x])[1..] == xs[1..] + [x];
      ReverseSnoc(xs[1..], x);
    }
  }

  /** The copies of an earlier version of the GDI+ bitmap: a node of prevImages. */
  class GDIPImageNode {
    const links: DLListItem<GDIPImageNode>
    var gdiBitmap: Option<Bitmap>

    /** `new GDIPImageNode()`: unlinked links, no bitmap. */
    constructor()
      ensures fresh(links) && links.dllPrev == NoSlot && links.dllNext == null && links.dllObject == None
      ensures gdiBitmap == None
    {
      links := new DLListItem();
      gdiBitmap := None;
    }

    /**
     * `~GDIPImageNode`: unlink from the list the node is on, then delete the
     * bitmap if there is one. The list argument names that list; removing
     * from it runs exactly `links.remove()`.
     */
    method Destroy(list: DLList<GDIPImageNode>) returns (ghost deleted: Option<Bitmap>)
      requires list.Valid() && (links in list.items || links.dllPrev == NoSlot)
      modifies this, list, list.Elems(), links
      ensures list.Valid() && links !in list.items && links.dllPrev == NoSlot && links.dllNext == null
      ensures links in old(list.items) ==> exists k :: 0 <= k < |old(list.items)| && old(list.items)[k] == links && list.items == old(list.items[..k]) + old(list.items[k + 1..])
      ensures links !in old(list.items) ==> list.items == old(list.items)
      ensures forall x :: x in old(list.items) ==> x.dllObject == old(x.dllObject)
      ensures deleted == old(gdiBitmap) && gdiBitmap == None
    {
      list.Remove(this, links);
      deleted := gdiBitmap;
      gdiBitmap := None;
    }
  }

  /** A scanned image: its links in the image list, its bitmaps and its undo stack. */
  class ImageNode {
    const links: DLListItem<ImageNode>
    var hBitmap: Option<HBitmap>
    var gdiBitmap: Option<Bitmap>
    const prevImages: DLList<GDIPImageNode>
    /** The nodes of prevImages, from its head. */
    ghost var backups: seq<GDIPImageNode>

    /** `new ImageNode()`: zero-initialised, so not linked anywhere, without bitmaps or backups. */
    constructor()
      ensures fresh(links) && fresh(prevImages) && links.dllPrev == NoSlot && links.dllNext == null && links.dllObject == None
      ensures hBitmap == None && gdiBitmap == None && backups == [] && Valid() && Abs() == Undo(None, [])
    {
      links := new DLListItem();
      hBitmap := None;
      gdiBitmap := None;
      prevImages := new DLList();
      backups := [];
    }

    /** The objects the image owns: its backup list, that list's links and the backup nodes. */
    ghost function Footprint(): set<object>
      reads this, prevImages
    {
      {prevImages} + prevImages.Elems() + Nodes()
    }

    /** The backup nodes, as a set. */
    ghost function Nodes(): set<GDIPImageNode>
      reads this
    {
      set n | n in backups
    }

    /** prevImages is a valid list whose i-th item is the links of backups[i], pointing back at it. */
    ghost predicate Valid()
      reads this, prevImages, prevImages.Elems()
    {
      && prevImages.Valid()
      && Distinct(backups)
      && |prevImages.items| == |backups|
      && (forall i {:trigger backups[i]} :: 0 <= i < |backups| ==>
            prevImages.items[i] == backups[i].links && backups[i].links.dllObject == Some(backups[i]))
    }

    /** The undo state: the current bitmap and the backups' bitmaps from the most recent. */
    ghost function Abs(): Undo
      reads this, Nodes()
    {
      Undo(gdiBitmap, BitmapsOf(backups))
    }

    /** The bitmaps held by ns, in order. */
    static ghost function BitmapsOf(ns: seq<GDIPImageNode>): (r: seq<Option<Bitmap>>)
      reads set n | n in ns
      ensures |r| == |ns|
    {
      if ns == [] then [] else [ns[0].gdiBitmap] + BitmapsOf(ns[1..])
    }

    /** `backup()`: with a current bitmap, push a node holding its copy `clone` onto prevImages. */
    method Backup(clone: Option<Bitmap>)
      requires Valid()
      modifies this, prevImages, prevImages.Elems()
      ensures Valid() && Abs() == BackedUp(old(Abs()), clone)
      ensures hBitmap == old(hBitmap)
    {
      if gdiBitmap.None? {
        return;
      }
      var node := new GDIPImageNode();
      node.gdiBitmap := clone;
      prevImages.Insert(node, node.links);
      backups := [node] + backups;
      Pushed(node);
    }

    /** Pushing `node`, whose links now head prevImages, keeps the node valid and its bitmap on top. */
    twostate lemma Pushed(new node: GDIPImageNode)
      requires old(Valid()) && node !in old(backups)
      requires backups == [node] + old(backups) && gdiBitmap == old(gdiBitmap)
      requires prevImages.Valid() && prevImages.items == [node.links] + old(prevImages.items)
      requires node.links.dllObject == Some(node)
      requires forall x :: x in old(prevImages.items) ==> x.dllObject == old(x.dllObject)
      requires unchanged(old(Nodes()))
      ensures Valid() && Abs() == Undo(gdiBitmap, [node.gdiBitmap] + old(Abs().backups))
    {
      var before := old(backups);
      DistinctInsert(before, 0, node);
      assert backups[1..] == before;
      assert BitmapsOf(before) == old(BitmapsOf(before));
      forall j | 1 <= j < |backups|
        ensures prevImages.items[j] == backups[j].links && backups[j].links.dllObject == Some(backups[j])
      {
        assert old(prevImages.items[j - 1]) in old(prevImages.items);
      }
    }

    /**
     * `restoreBackup()`: without backups, false; otherwise delete the current
     * bitmap, take over the most recent backup's bitmap and delete that node.
     */
    method RestoreBackup() returns (ok: bool, ghost deleted: Option<Bitmap>)
      requires Valid()
      modifies this, prevImages, prevImages.Elems(), Nodes()
      ensures Valid() && Restore(old(Abs())) == Restored(ok, Abs(), deleted)
      ensures hBitmap == old(hBitmap)
    {
      if prevImages.head == null {
        return false, None;
      }
      deleted := gdiBitmap;
      var pNode := prevImages.head.dllObject.value;
      gdiBitmap := pNode.gdiBitmap;
      pNode.gdiBitmap := None;
      ghost var _ := pNode.Destroy(prevImages);
      backups := backups[1..];
      return true, deleted;
    }

    /** `delete prevImages.head->dllObject`: the most recent backup node goes, and its bitmap with it. */
    method DeleteNewest() returns (ghost deleted: Option<Bitmap>)
      requires Valid() && prevImages.head != null
      modifies this, prevImages, prevImages.Elems(), Nodes()
      ensures Valid() && gdiBitmap == old(gdiBitmap) && hBitmap == old(hBitmap)
      ensures old(|backups|) > 0 && Abs().backups == old(Abs().backups[1..]) && deleted == old(Abs().backups[0])
      ensures backups == old(backups[1..]) && prevImages.items == old(prevImages.items[1..])
    {
      assert prevImages.head == backups[0].links;
      var pNode := prevImages.head.dllObject.value;
      deleted := pNode.Destroy(prevImages);
      backups := backups[1..];
    }

    /**
     * The destructor's loop `while(prevImages.head) delete
     * prevImages.head->dllObject`: every backup goes, with its bitmap.
     */
    method DeleteBackups() returns (ghost deleted: seq<Bitmap>)
      requires Valid()
      modifies this, prevImages, prevImages.Elems(), Nodes()
      ensures Valid() && prevImages.head == null && backups == []
      ensures gdiBitmap == old(gdiBitmap) && hBitmap == old(hBitmap)
      ensures deleted == Present(old(Abs().backups))
    {
      deleted := [];
      ghost var all, nodes, elems := Present(Abs().backups), Nodes(), prevImages.Elems();
      while prevImages.head != null
        invariant Valid() && gdiBitmap == old(gdiBitmap) && hBitmap == old(hBitmap)
        invariant all == deleted + Present(Abs().backups)
        invariant Nodes() <= nodes && prevImages.Elems() <= elems
        decreases |backups|
      {
        ghost var front := Abs().backups;
        ghost var d := DeleteNewest();
        ghost var rest := Present(front[1..]);
        PresentAppend([d], front[1..]);
        assert [d] + front[1..] == front;
        assert all == (deleted + Present([d])) + rest;
        deleted := deleted + Present([d]);
      }
      assert |backups| == 0;
    }

    /**
     * What `~ImageNode` does after unlinking: delete the scanner's bitmap
     * handle and the current bitmap, then every backup. Every bitmap the
     * image owned is deleted.
     */
    method Release() returns (ghost handle: Option<HBitmap>, ghost deleted: seq<Bitmap>)
      requires Valid()
      modifies this, prevImages, prevImages.Elems(), Nodes()
      ensures handle == old(hBitmap) && hBitmap == None && gdiBitmap == None
      ensures Valid() && prevImages.head == null && backups == [] && deleted == Owned(old(Abs()))
    {
      handle := hBitmap;
      hBitmap := None;
      deleted := Present([gdiBitmap]);
      PresentAppend([gdiBitmap], Abs().backups);
      gdiBitmap := None;
      ghost var rest := DeleteBackups();
      deleted := deleted + rest;
    }

    /** `~ImageNode`: unlink from the image list `list`, then release what the image owns. */
    method Destroy(list: DLList<ImageNode>) returns (ghost handle: Option<HBitmap>, ghost deleted: seq<Bitmap>)
      requires Valid() && list.Valid() && (links in list.items || links.dllPrev == NoSlot)
      modifies this, list, list.Elems(), links, prevImages, prevImages.Elems(), Nodes()
      ensures list.Valid() && links !in list.items && links.dllPrev == NoSlot && links.dllNext == null
      ensures links in old(list.items) ==> exists k :: 0 <= k < |old(list.items)| && old(list.items)[k] == links && list.items == old(list.items[..k]) + old(list.items[k + 1..])
      ensures links !in old(list.items) ==> list.items == old(list.items)
      ensures forall x :: x in old(list.items) ==> x.dllObject == old(x.dllObject)
      ensures handle == old(hBitmap) && hBitmap == None && gdiBitmap == None
      ensures Valid() && prevImages.head == null && backups == [] && deleted == Owned(old(Abs()))
    {
      list.Remove(this, links);
      handle, deleted := Release();
    }
  }
  /** Every object of n's backups is recorded in `owner` as n's. */
  ghost predicate Owns(owner: map<object, ImageNode>, n: ImageNode)
    reads n, n.prevImages
  {
    forall o :: o in n.Footprint() ==> o in owner && owner[o] == n
  }

  /** The scanner bitmap handles held by ns, in order. */
  ghost function HandlesOf(ns: seq<ImageNode>): (r: seq<Option<HBitmap>>)
    reads set n | n in ns
    ensures |r| == |ns| && forall i :: 0 <= i < |ns| ==> r[i] == ns[i].hBitmap
  {
    if ns == [] then [] else [ns[0].hBitmap] + HandlesOf(ns[1..])
  }

  /**
   * `ImageList`, the DLList of ImageNodes, with the images it links from its
   * head and, for every object of their backups, the image that owns it.
   */
  class ImageList {
    const list: DLList<ImageNode>
    /** The images of list, from its head. */
    ghost var images: seq<ImageNode>
    /** Which image owns each object of the images' backups. */
    ghost var owner: map<object, ImageNode>

    /** An empty list. */
    constructor()
      ensures Valid() && images == [] && owner == map[] && fresh(list)
    {
      list := new DLList();
      images := [];
      owner := map[];
    }

    /** The images, as a set. */
    ghost function Images(): set<ImageNode>
      reads this
    {
      set n | n in images
    }

    /**
     * list links exactly `images`, each pointing back at its image; every
     * image is valid, and the objects of its backups belong to it alone.
     */
    ghost predicate Valid()
      reads this, list, list.Elems(), Images(), owner.Keys
    {
      var apart := this !in owner && list !in owner && owner.Keys !! list.Elems() && owner.Keys !! Images() && Images() !! list.Elems();
      var linked := list.Valid() && Distinct(images) && |list.items| == |images|;
      var each := linked && forall i {:trigger images[i]} :: 0 <= i < |images| ==>
            && list.items[i] == images[i].links && images[i].links.dllObject == Some(images[i])
            && images[i].prevImages in owner && Owns(owner, images[i]) && images[i].Valid();
      apart && each
    }

    /** Valid depends only on the list, its images and the objects they own. */
    twostate lemma Framed()
      requires old(Valid()) && unchanged(this, list)
      requires unchanged(old(list.Elems())) && unchanged(old(Images())) && unchanged(old(owner.Keys))
      ensures Valid()
    {
    }

    /**
     * Unlinking and destroying the head image `n` leaves the other images, and
     * the objects they own, as they were.
     */
    twostate lemma HeadDropped(new n: ImageNode, new rest: set<ImageNode>, new kept: set<object>)
      requires old(Valid()) && 0 < old(|images|) && n == old(images[0])
      requires rest == old(Images()) - {n} && kept == (set o | o in old(owner) && old(owner[o]) != n)
      requires images == old(images[1..]) && owner == old(owner)
      requires list.Valid() && list.items == old(list.items[1..])
      requires forall x :: x in old(list.items) ==> x.dllObject == old(x.dllObject)
      requires unchanged(rest) && unchanged(kept)
      ensures Valid() && forall m :: m in images ==> m.hBitmap == old(m.hBitmap)
    {
      forall i | 0 <= i < |images|
        ensures list.items[i] == images[i].links && images[i].links.dllObject == Some(images[i])
        ensures images[i].prevImages in owner && Owns(owner, images[i]) && images[i].Valid()
      {
        assert images[i] == old(images[i + 1]);
        assert list.items[i] == old(list.items[i + 1]);
      }
      assert forall m :: m in images ==> m in rest;
    }

    /** `delete list.head->dllObject`: destroy the first image. */
    method DeleteHead() returns (ghost handle: Option<HBitmap>, ghost deleted: seq<Bitmap>)
      requires Valid() && list.head != null
      modifies this, list, list.Elems(), Images(), owner.Keys
      ensures Valid() && images == old(images[1..]) && owner == old(owner)
      ensures list.Elems() <= old(list.Elems())
      ensures handle == old(images[0].hBitmap) && deleted == old(Owned(images[0].Abs()))
      ensures forall m :: m in images ==> m.hBitmap == old(m.hBitmap)
    {
      list.SlotTarget(0);
      assert list.head == list.items[0] == images[0].links;
      var n := list.head.dllObject.value;
      assert n == images[0];
      ghost var rest, kept := Images() - {n}, set o | o in owner && owner[o] != n;
      ghost var touched := {n, list} + list.Elems() + n.Footprint();
      assert rest !! touched && kept !! touched;
      handle, deleted := n.Destroy(list);
      images := images[1..];
      HeadDropped(n, rest, kept);
    }

    /** `all` is `handles`, the handles deleted so far, followed by those the images still hold. */
    ghost predicate Accounted(all: seq<Option<HBitmap>>, handles: seq<Option<HBitmap>>)
      reads this, Images()
    {
      && |handles| + |images| == |all| && handles == all[..|handles|]
      && forall i :: 0 <= i < |images| ==> images[i].hBitmap == all[|handles| + i]
    }

    /** Destroying the head image, whose handle was h, keeps the account. */
    twostate lemma StillAccounted(new all: seq<Option<HBitmap>>, new handles: seq<Option<HBitmap>>, new h: Option<HBitmap>)
      requires |handles| + old(|images|) == |all| && handles == all[..|handles|] && 0 < old(|images|)
      requires forall i :: 0 <= i < old(|images|) ==> old(images[i].hBitmap) == all[|handles| + i]
      requires images == old(images[1..]) && h == old(images[0].hBitmap)
      requires forall m :: m in images ==> m.hBitmap == old(m.hBitmap)
      ensures Accounted(all, handles + [h])
    {
      forall i | 0 <= i < |images|
        ensures images[i].hBitmap == all[|handles| + 1 + i]
      {
        assert images[i] == old(images[i + 1]);
      }
    }

    /**
     * `while(list.head) delete list.head->dllObject`: destroy every image,
     * deleting each image's scanner bitmap in list order.
     */
    method Clear() returns (ghost handles: seq<Option<HBitmap>>)
      requires Valid()
      modifies this, list, list.Elems(), Images(), owner.Keys
      ensures Valid() && images == [] && list.head == null && owner == old(owner)
      ensures handles == old(HandlesOf(images))
    {
      handles := [];
      ghost var all := HandlesOf(images);
      while list.head != null
        invariant Valid() && Images() <= old(Images()) && owner == old(owner)
        invariant list.Elems() <= old(list.Elems())
        invariant Accounted(all, handles)
        decreases |images|
      {
        label L:
        ghost var h, deleted := DeleteHead();
        StillAccounted@L(all, handles, h);
        handles := handles + [h];
      }
      list.SlotTarget(0);
    }

    /** Linking a new image `x` at the tail, and recording its backup list, keeps the other images as they were. */
    twostate lemma Appended(new x: ImageNode, new keys: set<object>, new others: set<ImageNode>)
      requires old(Valid()) && fresh(x) && fresh(x.links) && fresh(x.prevImages)
      requires keys == old(owner.Keys) && others == old(Images()) && unchanged(keys) && unchanged(others)
      requires x.Valid() && x.backups == [] && x.links.dllObject == Some(x)
      requires images == old(images) + [x] && owner == old(owner)[x.prevImages := x]
      requires list.Valid() && list.items == old(list.items) + [x.links]
      requires forall y :: y in old(list.items) ==> y.dllObject == old(y.dllObject)
      ensures Valid()
    {
      forall i | 0 <= i < |images|
        ensures list.items[i] == images[i].links && images[i].links.dllObject == Some(images[i])
        ensures images[i].prevImages in owner && Owns(owner, images[i]) && images[i].Valid()
      {
        if i < |old(images)| {
          assert images[i] == old(images[i]);
        }
      }
    }

    /**
     * `newImage = new ImageNode(); newImage->hBitmap = h;
     * list.tailInsert(newImage)`: a new image holding `h`, linked at the tail.
     */
    method NewAtTail(h: Option<HBitmap>) returns (newImage: ImageNode)
      requires Valid()
      modifies this, list, list.Elems()
      ensures Valid() && images == old(images) + [newImage] && fresh(newImage) && newImage !in old(images)
      ensures newImage.hBitmap == h && newImage.Abs() == Undo(None, [])
      ensures owner == old(owner)[newImage.prevImages := newImage] && fresh(newImage.prevImages)
    {
      newImage := new ImageNode();
      newImage.hBitmap := h;
      ghost var keys, others := owner.Keys, Images();
      list.TailInsert(newImage, newImage.links);
      images := images + [newImage];
      owner := owner[newImage.prevImages := newImage];
      Appended(newImage, keys, others);
    }

    /** Linking a new image `x` at the head, and recording its backup list, keeps the other images as they were. */
    twostate lemma Prepended(new x: ImageNode, new keys: set<object>, new others: set<ImageNode>)
      requires old(Valid()) && fresh(x) && fresh(x.links) && fresh(x.prevImages)
      requires keys == old(owner.Keys) && others == old(Images()) && unchanged(keys) && unchanged(others)
      requires x.Valid() && x.backups == [] && x.links.dllObject == Some(x)
      requires images == [x] + old(images) && owner == old(owner)[x.prevImages := x]
      requires list.Valid() && list.items == [x.links] + old(list.items)
      requires forall y :: y in old(list.items) ==> y.dllObject == old(y.dllObject)
      ensures Valid()
    {
      DistinctInsert(old(images), 0, x);
      assert images == old(images)[..0] + [x] + old(images)[0..];
      forall i | 0 <= i < |images|
        ensures list.items[i] == images[i].links && images[i].links.dllObject == Some(images[i])
        ensures images[i].prevImages in owner && Owns(owner, images[i]) && images[i].Valid()
      {
        if 0 < i {
          assert images[i] == old(images[i - 1]);
          assert list.items[i] == old(list.items[i - 1]);
        }
      }
    }

    /**
     * `newImage = new ImageNode(); newImage->hBitmap = h;
     * list.insert(newImage)`: a new image holding `h`, linked at the head.
     */
    method NewAtHead(h: Option<HBitmap>) returns (newImage: ImageNode)
      requires Valid()
      modifies this, list, list.Elems()
      ensures Valid() && images == [newImage] + old(images) && fresh(newImage) && newImage !in old(images)
      ensures newImage.hBitmap == h && newImage.Abs() == Undo(None, [])
      ensures owner == old(owner)[newImage.prevImages := newImage] && fresh(newImage.prevImages)
    {
      newImage := new ImageNode();
      newImage.hBitmap := h;
      ghost var keys, others := owner.Keys, Images();
      list.Insert(newImage, newImage.links);
      images := [newImage] + images;
      owner := owner[newImage.prevImages := newImage];
      Prepended(newImage, keys, others);
    }
  }
}
