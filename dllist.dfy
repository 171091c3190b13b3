/**
 * The intrusive doubly linked list: DLListItem, the links an object carries,
 * and DLList, a list head.
 *
 * `dllPrev` is a pointer to the pointer that points at the item: either the
 * head of a list or the `dllNext` field of the item before it. It is modelled
 * as a Slot naming that field. A list's abstract contents are the ghost
 * sequence `items`; Valid() ties every link to it. The item's own insert and
 * remove are specified by the few fields they touch; the list's methods lift
 * that to `items` with the twostate lemmas Inserted and Removed.
 */
module DLLists {
  import opened Common

  /** The address of a link field: nowhere, a list's head, or an item's dllNext. */
  datatype Slot<T> = NoSlot | HeadSlot(list: DLList<T>) | NextSlot(item: DLListItem<T>)

  /** The item that the link field `slot` points at (`*slot`). */
  function Target<T>(slot: Slot<T>): (r: DLListItem?<T>)
    reads if slot.HeadSlot? then {slot.list} else {}
    reads if slot.NextSlot? then {slot.item} else {}
  {
    match slot
    case NoSlot => null
    case HeadSlot(l) => l.head
    case NextSlot(p) => p.dllNext
  }

  /** The object whose field the link field `slot` is. */
  function Holder<T>(slot: Slot<T>): set<object> {
    match slot
    case NoSlot => {}
    case HeadSlot(l) => {l}
    case NextSlot(p) => {p}
  }

  /** The item that `slot` points at, as a set (empty when it points nowhere). */
  function Follower<T>(slot: Slot<T>): set<DLListItem<T>>
    reads if slot.HeadSlot? then {slot.list} else {}
    reads if slot.NextSlot? then {slot.item} else {}
  {
    if Target(slot) == null then {} else {Target(slot)}
  }

  /** No object occurs twice in xs. */
  ghost predicate Distinct<X>(xs: seq<X>) {
    forall i, j :: 0 <= i < j < |xs| ==> xs[i] != xs[j]
  }

  /** Putting a new element at position k keeps a sequence free of repetitions. */
  lemma DistinctInsert<X>(xs: seq<X>, k: nat, x: X)
    requires Distinct(xs) && k <= |xs| && x !in xs
    ensures Distinct(xs[..k] + [x] + xs[k..])
  {
    var ys := xs[..k] + [x] + xs[k..];
    forall i, j | 0 <= i < j < |ys|
      ensures ys[i] != ys[j]
    {
      if i < k && j < k {
        assert ys[i] == xs[i] && ys[j] == xs[j];
      } else if i < k && j > k {
        assert ys[i] == xs[i] && ys[j] == xs[j - 1];
      } else if i > k {
        assert ys[i] == xs[i - 1] && ys[j] == xs[j - 1];
      } else if i == k {
        assert ys[j] == xs[j - 1];
      } else {
        assert ys[i] == xs[i];
      }
    }
  }

  /** Dropping position k keeps a sequence free of repetitions. */
  lemma DistinctRemove<X>(xs: seq<X>, k: nat)
    requires Distinct(xs) && k < |xs|
    ensures Distinct(xs[..k] + xs[k + 1..])
  {
    var ys := xs[..k] + xs[k + 1..];
    forall i, j | 0 <= i < j < |ys|
      ensures ys[i] != ys[j]
    {
      var i' := if i < k then i else i + 1;
      var j' := if j < k then j else j + 1;
      assert ys[i] == xs[i'] && ys[j] == xs[j'];
    }
  }

  /** The links an object of type T carries. */
  class DLListItem<T> {
    var dllNext: DLListItem?<T>
    var dllPrev: Slot<T>
    var dllObject: Option<T>
    var dllData: uint32

    /** A zero-initialised item: linked nowhere. */
    constructor()
      ensures dllNext == null && dllPrev == NoSlot && dllObject == None && dllData == 0
    {
      dllNext := null;
      dllPrev := NoSlot;
      dllObject := None;
      dllData := 0;
    }

    /**
     * `insert(parentObject, head)`: the item takes the place of whatever the
     * link field `head` pointed at, which now follows it and points back at
     * the item's dllNext; the item points back at `head` and at its object.
     * Nothing but the item, the field's holder and that old target changes.
     */
    method Insert(parentObject: T, head: Slot<T>)
      requires head != NoSlot && head != NextSlot(this) && Target(head) != this
      requires head.NextSlot? ==> Target(head) != head.item
      modifies this, Holder(head), Follower(head)
      ensures Target(head) == this && dllNext == old(Target(head)) && dllPrev == head
      ensures dllNext != null ==> dllNext.dllPrev == NextSlot(this) && dllNext.dllNext == old(Target(head).dllNext)
      ensures dllNext != null ==> dllNext.dllObject == old(Target(head).dllObject) && dllNext.dllData == old(Target(head).dllData)
      ensures head.NextSlot? ==> head.item.dllPrev == old(head.item.dllPrev)
      ensures head.NextSlot? ==> head.item.dllObject == old(head.item.dllObject) && head.item.dllData == old(head.item.dllData)
      ensures dllObject == Some(parentObject) && dllData == old(dllData)
    {
      var next := if head.HeadSlot? then head.list.head else head.item.dllNext;
      dllNext := next;
      if next != null {
        next.dllPrev := NextSlot(this);
      }
      dllPrev := head;
      if head.HeadSlot? {
        head.list.head := this;
      } else {
        head.item.dllNext := this;
      }
      dllObject := Some(parentObject);
    }

    /** The links point past the item itself: neither of them makes a loop of one or two items. */
    predicate Detachable()
      reads this
    {
      dllPrev != NoSlot ==>
        && dllPrev != NextSlot(this) && dllNext != this
        && (dllPrev.NextSlot? ==> dllPrev.item != dllNext)
    }

    /**
     * `remove()`: when the item is linked (its dllPrev names a field), that
     * field takes the item's successor, and the successor points back at that
     * field; then both links are cleared.
     */
    method Remove()
      requires Detachable()
      modifies this, Holder(dllPrev), if dllPrev != NoSlot && dllNext != null then {dllNext} else {}
      ensures dllPrev == NoSlot && dllNext == null
      ensures old(dllPrev) != NoSlot ==> Target(old(dllPrev)) == old(dllNext)
      ensures old(dllPrev).NextSlot? ==> old(dllPrev).item.dllPrev == old(dllPrev.item.dllPrev)
      ensures old(dllPrev).NextSlot? ==> old(dllPrev).item.dllObject == old(dllPrev.item.dllObject) && old(dllPrev).item.dllData == old(dllPrev.item.dllData)
      ensures old(dllPrev) != NoSlot && old(dllNext) != null ==>
                old(dllNext).dllPrev == old(dllPrev) && old(dllNext).dllNext == old(dllNext.dllNext)
      ensures old(dllNext) != null ==> old(dllNext).dllObject == old(dllNext.dllObject) && old(dllNext).dllData == old(dllNext.dllData)
      ensures dllObject == old(dllObject) && dllData == old(dllData)
    {
      var prev := dllPrev;
      var next := dllNext;
      if prev != NoSlot {
        if prev.HeadSlot? {
          prev.list.head := next;
        } else {
          prev.item.dllNext := next;
        }
        if next != null {
          next.dllPrev := prev;
        }
      }
      dllPrev := NoSlot;
      dllNext := null;
    }
  }

  /** A list head; `items` is the list from head to tail. */
  class DLList<T> {
    var head: DLListItem?<T>
    ghost var items: seq<DLListItem<T>>

    /** An empty list. */
    constructor()
      ensures head == null && items == []
    {
      head := null;
      items := [];
    }

    /** The items of the list, as a set: the objects whose links the list owns. */
    ghost function Elems(): set<DLListItem<T>>
      reads this
    {
      set x | x in items
    }

    /** The items of xs, as a set. */
    static ghost function Members(xs: seq<DLListItem<T>>): set<DLListItem<T>> {
      set x | x in xs
    }

    /** The items next to the slot before position k: the one before it and the one at it. */
    static ghost function Around(xs: seq<DLListItem<T>>, k: nat): set<DLListItem<T>>
      requires k <= |xs|
    {
      (if 0 < k then {xs[k - 1]} else {}) + (if k < |xs| then {xs[k]} else {})
    }

    /** The slot that points at position k: the head, or dllNext of the item before. */
    ghost function SlotAt(k: nat): (r: Slot<T>)
      reads this
      requires k <= |items|
      ensures r != NoSlot
    {
      if k == 0 then HeadSlot(this) else NextSlot(items[k - 1])
    }

    /** The links spell out `items`: distinct items, the head, every dllNext and every dllPrev. */
    ghost predicate Valid()
      reads this, Elems()
    {
      && Distinct(items)
      && head == (if |items| == 0 then null else items[0])
      && (forall i {:trigger items[i].dllNext} :: 0 <= i < |items| ==> items[i].dllNext == (if i + 1 < |items| then items[i + 1] else null))
      && (forall i {:trigger items[i].dllPrev} :: 0 <= i < |items| ==> items[i].dllPrev == SlotAt(i))
    }

    /**
     * The same invariant in the source's terms: every linked item is what its
     * dllPrev points at, and its successor's dllPrev is its own dllNext.
     */
    lemma Consistent(i: nat)
      requires Valid() && i < |items|
      ensures Target(items[i].dllPrev) == items[i]
      ensures items[i].dllNext != null ==> items[i].dllNext.dllPrev == NextSlot(items[i])
    {
      if i + 1 < |items| {
        assert items[i + 1].dllPrev == SlotAt(i + 1);
      }
    }

    /** The slot before position k points at the item there, or nowhere at the end. */
    lemma SlotTarget(k: nat)
      requires Valid() && k <= |items|
      ensures Target(SlotAt(k)) == (if k < |items| then items[k] else null)
    {
    }

    /** An item of a valid list is linked, at the slot of its position. */
    lemma LinkedAt(k: nat)
      requires Valid() && k < |items|
      ensures items[k].dllPrev == SlotAt(k) && Target(SlotAt(k)) == items[k]
      ensures items[k].dllNext == (if k + 1 < |items| then items[k + 1] else null)
      ensures items[k].Detachable()
    {
      if 0 < k {
        assert items[k - 1] != items[k];
      }
      if k + 1 < |items| {
        assert items[k + 1] != items[k];
        if 0 < k {
          assert items[k - 1] != items[k + 1];
        }
      }
    }

    /** An item whose dllPrev names no slot is in no valid list. */
    lemma Unlinked(x: DLListItem<T>)
      requires Valid() && x.dllPrev == NoSlot
      ensures x !in items
    {
      forall i | 0 <= i < |items|
        ensures items[i] != x
      {
        assert items[i].dllPrev == SlotAt(i);
      }
    }

    /** Linking x in at position k changes the links of its two neighbours and nobody else's. */
    twostate lemma Inserted(new before: seq<DLListItem<T>>, k: nat, new x: DLListItem<T>)
      requires old(Valid()) && old(items) == before && k <= |before| && x !in before
      requires items == before[..k] + [x] + before[k..]
      requires head == (if k == 0 then x else old(head))
      requires x.dllNext == (if k < |before| then before[k] else null) && x.dllPrev == (if k == 0 then HeadSlot(this) else NextSlot(before[k - 1]))
      requires 0 < k ==> before[k - 1].dllNext == x && before[k - 1].dllPrev == old(before[k - 1].dllPrev)
      requires k < |before| ==> before[k].dllPrev == NextSlot(x) && before[k].dllNext == old(before[k].dllNext)
      requires unchanged(Members(before) - Around(before, k))
      ensures Valid()
    {
      DistinctInsert(before, k, x);
      forall i | 0 <= i < |items|
        ensures items[i].dllNext == (if i + 1 < |items| then items[i + 1] else null)
        ensures items[i].dllPrev == SlotAt(i)
      {
        if i < k {
          assert items[i] == before[i];
          if i + 1 < k {
            assert before[i] !in Around(before, k);
            assert old(before[i].dllNext) == before[i + 1] && old(before[i].dllPrev) == old(SlotAt(i));
          }
        } else if i > k {
          assert items[i] == before[i - 1];
          if i > k + 1 {
            assert before[i - 1] !in Around(before, k);
            assert old(before[i - 1].dllNext) == (if i < |before| then before[i] else null);
            assert old(before[i - 1].dllPrev) == old(SlotAt(i - 1));
          }
        }
      }
    }

    /** Unlinking position k changes the links of its neighbours and of the item itself, nobody else's. */
    twostate lemma Removed(new before: seq<DLListItem<T>>, k: nat)
      requires old(Valid()) && old(items) == before && k < |before|
      requires items == before[..k] + before[k + 1..]
      requires head == (if k == 0 then old(before[k].dllNext) else old(head))
      requires 0 < k ==> before[k - 1].dllNext == old(before[k].dllNext) && before[k - 1].dllPrev == old(before[k - 1].dllPrev)
      requires k + 1 < |before| ==> before[k + 1].dllPrev == old(before[k].dllPrev) && before[k + 1].dllNext == old(before[k + 1].dllNext)
      requires unchanged(Members(before) - Around(before, k) - Around(before, k + 1))
      ensures Valid()
    {
      DistinctRemove(before, k);
      forall i | 0 <= i < |items|
        ensures items[i].dllNext == (if i + 1 < |items| then items[i + 1] else null)
        ensures items[i].dllPrev == SlotAt(i)
      {
        if i < k {
          assert items[i] == before[i];
          if i + 1 < k {
            assert before[i] !in Around(before, k);
            assert old(before[i].dllNext) == before[i + 1] && old(before[i].dllPrev) == old(SlotAt(i));
          }
        } else {
          assert items[i] == before[i + 1];
          if i > k {
            assert before[i + 1] !in Around(before, k + 1);
            assert old(before[i + 1].dllNext) == (if i + 2 < |before| then before[i + 2] else null);
            assert old(before[i + 1].dllPrev) == old(SlotAt(i + 1));
          }
        }
      }
    }

    /**
     * `insert(object)`: the object's links `item` (`object->*link`) are
     * linked in at the head.
     */
    method Insert(obj: T, item: DLListItem<T>)
      requires Valid() && item !in items
      modifies this, Elems(), item
      ensures Valid() && items == [item] + old(items)
      ensures item.dllObject == Some(obj)
      ensures forall x :: x in old(items) ==> x.dllObject == old(x.dllObject) && x.dllData == old(x.dllData)
    {
      ghost var before, k := items, 0;
      SlotTarget(k);
      item.Insert(obj, HeadSlot(this));
      items := before[..k] + [item] + before[k..];
      Inserted(before, k, item);
    }

    /**
     * `remove(object)`: unlink the object's links `item`. The item's own
     * remove() does nothing but clear the links when dllPrev names no field;
     * the two calls below are that test made visible, so that each case is
     * proved on its own. An unlinked item changes nothing else.
     */
    method Remove(obj: T, item: DLListItem<T>)
      requires Valid() && (item in items || item.dllPrev == NoSlot)
      modifies this, Elems(), item
      ensures Valid() && item.dllPrev == NoSlot && item.dllNext == null && item !in items
      ensures item in old(items) ==> exists k :: 0 <= k < |old(items)| && old(items)[k] == item && items == old(items[..k]) + old(items[k + 1..])
      ensures item !in old(items) ==> items == old(items) && unchanged(this) && unchanged(Elems())
      ensures forall x :: x in old(items) ==> x.dllObject == old(x.dllObject) && x.dllData == old(x.dllData)
    {
      ghost var before := items;
      if item.dllPrev != NoSlot {
        ghost var k :| 0 <= k < |items| && items[k] == item;
        LinkedAt(k);
        ghost var prev, next := item.dllPrev, item.dllNext;
        item.Remove();
        forall x | x in before
          ensures x.dllObject == old(x.dllObject) && x.dllData == old(x.dllData)
        {
          if x != item && !(prev.NextSlot? && x == prev.item) && x != next {
            assert x !in Holder(prev);
          }
        }
        items := before[..k] + before[k + 1..];
        Removed(before, k);
      } else {
        Unlinked(item);
        item.Remove();
      }
    }

    /**
     * `tailInsert(object)`: walk to the last item and link the object's links
     * `item` in after it, or at the head of an empty list.
     */
    method TailInsert(obj: T, item: DLListItem<T>)
      requires Valid() && item !in items
      modifies this, Elems(), item
      ensures Valid() && items == old(items) + [item]
      ensures item.dllObject == Some(obj)
      ensures forall x :: x in old(items) ==> x.dllObject == old(x.dllObject) && x.dllData == old(x.dllData)
    {
      var last := head;
      ghost var j := 0;
      while last != null && last.dllNext != null
        modifies {}
        invariant j < |items| || (j == 0 && items == [])
        invariant last == (if |items| == 0 then null else items[j])
        decreases |items| - j
      {
        LinkedAt(j);
        last := last.dllNext;
        j := j + 1;
      }
      ghost var before := items;
      ghost var n := |items|;
      if last != null {
        LinkedAt(j);
      }
      SlotTarget(n);
      item.Insert(obj, if last != null then NextSlot(last) else HeadSlot(this));
      items := before[..n] + [item] + before[n..];
      Inserted(before, n, item);
    }
  }
}
