/** The doubly linked list of children below a cJSON array or object. */
module ChildList {

  ghost function Nth(list: seq<Item>, i: int): Item? {
    if 0 <= i < |list| then list[i] else null
  }

  predicate Distinct(list: seq<Item>) {
    forall i, j :: 0 <= i < j < |list| ==> list[i] != list[j]
  }

  /** The items of `list` are linked both ways in this order; nothing precedes the head or follows the tail. */
  ghost predicate Linked(list: seq<Item>)
    reads list`next, list`prev
  {
    Distinct(list)
    && (forall i {:trigger list[i].next} :: 0 <= i < |list| ==> list[i].next == Nth(list, i + 1))
    && (forall i {:trigger list[i].prev} :: 0 <= i < |list| ==> list[i].prev == Nth(list, i - 1))
  }

  lemma Links(list: seq<Item>)
    requires Linked(list)
    ensures Distinct(list)
    ensures forall i {:trigger list[i].next} :: 0 <= i < |list| ==> list[i].next == Nth(list, i + 1)
    ensures forall i {:trigger list[i].prev} :: 0 <= i < |list| ==> list[i].prev == Nth(list, i - 1)
  {
  }

  lemma OnlyAt(list: seq<Item>, k: int)
    requires Distinct(list)
    ensures 0 <= k < |list| ==> forall i :: 0 <= i < |list| && i != k ==> list[i] != list[k]
  {
  }

  ghost function Inserted(list: seq<Item>, k: nat, item: Item): seq<Item>
    requires k <= |list|
  {
    list[..k] + [item] + list[k..]
  }

  ghost function Removed(list: seq<Item>, k: nat): seq<Item>
    requires k < |list|
  {
    list[..k] + list[k + 1..]
  }

  /** Taking out what was put in gives the old list back. */
  lemma RemovedInserted(list: seq<Item>, k: nat, item: Item)
    requires k <= |list|
    ensures Removed(Inserted(list, k, item), k) == list
  {
    var more := Inserted(list, k, item);
    assert more[..k] == list[..k] && more[k + 1..] == list[k..];
  }

  lemma LinkedInserted(list: seq<Item>, k: nat, item: Item)
    requires k <= |list| && Distinct(list) && item !in list
    requires forall i {:trigger list[i].next} :: 0 <= i < |list| ==>
               list[i].next == if i == k - 1 then item else Nth(list, i + 1)
    requires forall i {:trigger list[i].prev} :: 0 <= i < |list| ==>
               list[i].prev == if i == k then item else Nth(list, i - 1)
    requires item.prev == Nth(list, k - 1) && item.next == Nth(list, k)
    ensures Linked(Inserted(list, k, item))
  {
    var more := Inserted(list, k, item);
    assert forall i :: 0 <= i < |more| ==>
        more[i] == if i < k then list[i] else if i == k then item else list[i - 1];
  }

  lemma LinkedRemoved(list: seq<Item>, k: nat)
    requires k < |list| && Distinct(list)
    requires forall i {:trigger list[i].next} :: 0 <= i < |list| && i != k ==>
               list[i].next == if i == k - 1 then Nth(list, k + 1) else Nth(list, i + 1)
    requires forall i {:trigger list[i].prev} :: 0 <= i < |list| && i != k ==>
               list[i].prev == if i == k + 1 then Nth(list, k - 1) else Nth(list, i - 1)
    ensures Linked(Removed(list, k))
  {
    var less := Removed(list, k);
    assert forall i :: 0 <= i < |less| ==> less[i] == if i < k then list[i] else list[i + 1];
  }

  lemma LinkedReplaced(list: seq<Item>, k: nat, item: Item)
    requires k < |list| && Distinct(list) && item !in list
    requires forall i {:trigger list[i].next} :: 0 <= i < |list| && i != k ==>
               list[i].next == if i == k - 1 then item else Nth(list, i + 1)
    requires forall i {:trigger list[i].prev} :: 0 <= i < |list| && i != k ==>
               list[i].prev == if i == k + 1 then item else Nth(list, i - 1)
    requires item.prev == Nth(list, k - 1) && item.next == Nth(list, k + 1)
    ensures Linked(list[k := item])
  {
  }

  class Item {
    var next: Item?
    var prev: Item?
    var child: Item?
    ghost var children: seq<Item>

    /** cJSON_New_Item: all pointers are null. */
    constructor ()
      ensures next == null && prev == null && child == null && children == []
    {
      next, prev, child, children := null, null, null, [];
    }

    ghost predicate Valid()
      reads this, children`next, children`prev
    {
      Linked(children) && child == Nth(children, 0)
    }

    /** An item that is in no list and can be put into this one. */
    ghost predicate Unlinked(item: Item)
      reads this, item
    {
      item.next == null && item.prev == null && item !in children
    }

    /** get_array_item */
    method GetItem(index: nat) returns (item: Item?)
      requires Valid()
      ensures item == Nth(children, index)
    {
      item := child;
      var i := index;
      while item != null && i > 0
        invariant 0 <= i <= index && item == Nth(children, index - i)
        invariant index - i <= |children|
      {
        i := i - 1;
        item := item.next;
      }
    }

    /** cJSON_AddItemToArray */
    method AddItem(item: Item)
      requires Valid() && Unlinked(item)
      modifies this`child, this`children, item`prev, children`next
      ensures Valid() && children == old(children) + [item]
    {
      ghost var list := children;
      if child == null {
        child := item;
      } else {
        var last := child;
        ghost var k := 0;
        while last.next != null
          invariant 0 <= k < |list| && last == list[k]
          decreases |list| - k
        {
          last := last.next;
          k := k + 1;
        }
        last.next := item;
        item.prev := last;
      }
      LinkedInserted(list, |list|, item);
      assert Inserted(list, |list|, item) == list + [item];
      hide Linked;
      children := list + [item];
    }

    /** cJSON_InsertItemInArray: beyond the end it appends, before the start it does nothing. */
    method Insert(which: int, item: Item)
      requires Valid() && Unlinked(item)
      modifies this`child, this`children, item`next, item`prev, children`next, children`prev
      ensures Valid()
      ensures children == if which < 0 then old(children)
                          else if which < |old(children)| then Inserted(old(children), which, item)
                          else old(children) + [item]
    {
      if which < 0 {
        return;
      }
      var after := GetItem(which);
      if after == null {
        AddItem(item);
        return;
      }
      InsertBefore(after, which, item);
    }

    method InsertBefore(after: Item, ghost k: nat, item: Item)
      requires Valid() && Unlinked(item) && k < |children| && after == children[k]
      modifies this`child, this`children, item`next, item`prev, children`next, children`prev
      ensures Valid() && children == Inserted(old(children), k, item)
    {
      ghost var list := children;
      assert forall i :: 0 <= i < |list| && i != k ==> list[i] != after;
      assert forall i :: 0 <= i < |list| && i != k - 1 ==> list[i] != after.prev;
      item.next := after;
      item.prev := after.prev;
      after.prev := item;
      if after == child {
        child := item;
      } else {
        item.prev.next := item;
      }
      LinkedInserted(list, k, item);
      hide Linked;
      children := Inserted(list, k, item);
    }

    /** cJSON_DetachItemViaPointer */
    method DetachViaPointer(item: Item?, ghost k: nat) returns (detached: Item?)
      requires Valid() && (item != null ==> k < |children| && children[k] == item)
      modifies this`child, this`children, children`next, children`prev
      ensures Valid() && detached == item
      ensures children == if item == null then old(children) else Removed(old(children), k)
      ensures item != null ==> item.next == null && item.prev == null && item !in children
    {
      hide Linked, Distinct;
      if item == null {
        return null;
      }
      ghost var list := children;
      Links(list);
      OnlyAt(list, k - 1);
      OnlyAt(list, k);
      OnlyAt(list, k + 1);
      if item.prev != null {
        item.prev.next := item.next;
      }
      if item.next != null {
        item.next.prev := item.prev;
      }
      if item == child {
        child := item.next;
      }
      item.prev := null;
      item.next := null;
      LinkedRemoved(list, k);
      children := Removed(list, k);
      return item;
    }

    /** cJSON_DetachItemFromArray */
    method Detach(which: int) returns (detached: Item?)
      requires Valid()
      modifies this`child, this`children, children`next, children`prev
      ensures Valid() && detached == Nth(old(children), which)
      ensures children == if 0 <= which < |old(children)| then Removed(old(children), which) else old(children)
      ensures detached != null ==> Unlinked(detached)
    {
      if which < 0 {
        return null;
      }
      var item := GetItem(which);
      detached := DetachViaPointer(item, which);
    }

    /** cJSON_ReplaceItemViaPointer; the old item must be in the list unless it is the new one. */
    method ReplaceViaPointer(item: Item, ghost k: nat, replacement: Item?) returns (ok: bool)
      requires Valid() && k < |children| && children[k] == item
      requires replacement != null ==> replacement !in children || replacement == item
      modifies this`child, this`children, children`next, children`prev,
               if replacement == null then {} else {replacement}
      ensures Valid() && (ok <==> replacement != null)
      ensures children == if ok then old(children)[k := replacement] else old(children)
    {
      hide Linked, Distinct;
      if replacement == null {
        return false;
      }
      if replacement == item {
        return true;
      }
      ghost var list := children;
      Links(list);
      OnlyAt(list, k - 1);
      OnlyAt(list, k);
      OnlyAt(list, k + 1);
      replacement.next := item.next;
      replacement.prev := item.prev;
      if replacement.next != null {
        replacement.next.prev := replacement;
      }
      if replacement.prev != null {
        replacement.prev.next := replacement;
      }
      if child == item {
        child := replacement;
      }
      item.next := null;
      item.prev := null;
      LinkedReplaced(list, k, replacement);
      children := list[k := replacement];
      return true;
    }

    /** Inserting and detaching at the same place changes nothing. */
    method InsertThenDetach(which: nat, item: Item) returns (detached: Item?)
      requires Valid() && Unlinked(item) && which <= |children|
      modifies this`child, this`children, item`next, item`prev, children`next, children`prev
      ensures Valid() && children == old(children) && detached == item && Unlinked(item)
    {
      RemovedInserted(children, which, item);
      assert which == |children| ==> Inserted(children, which, item) == children + [item];
      Insert(which, item);
      detached := Detach(which);
    }
  }
}
