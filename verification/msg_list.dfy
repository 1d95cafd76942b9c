/** The linked list of libburn/libdax_msgs.c which holds the message queue. */
module MsgList {
  import opened MsgQueue

  class Item {
    var prev: Item?
    var next: Item?
    const message: Message

    constructor (message: Message, prev: Item?)
      ensures this.message == message && this.prev == prev && next == null
    {
      this.message, this.prev, next := message, prev, null;
    }
  }

  /** Element i of a list or null if there is no such element. */
  function At(items: seq<Item>, i: int): Item? {
    if 0 <= i < |items| then items[i] else null
  }

  ghost predicate Distinct(items: seq<Item>) {
    forall i, j :: 0 <= i < j < |items| ==> items[i] != items[j]
  }

  /** Neighbors refer to each other. */
  ghost predicate Linked(items: seq<Item>)
    reads items
  {
    && Distinct(items)
    && forall i :: 0 <= i < |items| ==> items[i].prev == At(items, i - 1) && items[i].next == At(items, i + 1)
  }

  function Messages(items: seq<Item>): (q: seq<Message>)
    ensures |q| == |items|
  {
    seq(|items|, i requires 0 <= i < |items| => items[i].message)
  }

  function Without(items: seq<Item>, k: nat): (r: seq<Item>)
    requires k < |items|
    ensures |r| == |items| - 1
  {
    items[..k] + items[k + 1..]
  }

  lemma WithoutDistinct(items: seq<Item>, k: nat)
    requires k < |items| && Distinct(items)
    ensures Distinct(Without(items, k)) && items[k] !in Without(items, k)
  {}

  ghost predicate Within(items: seq<Item>, others: seq<Item>) {
    forall k :: 0 <= k < |items| ==> items[k] in others
  }

  lemma WithoutFewer(items: seq<Item>, k: nat)
    requires k < |items|
    ensures Within(Without(items, k), items)
  {}

  lemma WithoutAt(items: seq<Item>, k: nat, i: int)
    requires k < |items|
    ensures At(Without(items, k), i) == At(items, if i < k then i else i + 1)
  {}

  /** The list after its element k has been bypassed. */
  lemma WithoutLinked(items: seq<Item>, k: nat)
    requires k < |items| && Distinct(items)
    requires Bypassed(items, k)
    ensures Linked(Without(items, k))
  {
    hide Distinct, At, Without;
    WithoutDistinct(items, k);
    var after := Without(items, k);
    forall i | 0 <= i < |after|
      ensures after[i].prev == At(after, i - 1) && after[i].next == At(after, i + 1)
    {
      WithoutAt(items, k, i - 1);
      WithoutAt(items, k, i);
      WithoutAt(items, k, i + 1);
      AtIs(after, i);
      AtIs(items, if i < k then i else i + 1);
    }
  }

  lemma AtIs(items: seq<Item>, i: nat)
    requires i < |items|
    ensures At(items, i) == items[i]
  {}

  lemma AppendedLinked(items: seq<Item>, x: Item)
    requires Distinct(items) && x !in items
    requires x.prev == At(items, |items| - 1) && x.next == null
    requires forall i :: 0 <= i < |items| ==>
      && items[i].prev == At(items, i - 1)
      && items[i].next == if i == |items| - 1 then x else At(items, i + 1)
    ensures Linked(items + [x])
  {}

  lemma MessagesWithout(items: seq<Item>, k: nat)
    requires k < |items|
    ensures Messages(Without(items, k)) == Messages(items)[..k] + Messages(items)[k + 1..]
  {}

  lemma MessagesAppended(items: seq<Item>, x: Item)
    ensures Messages(items + [x]) == Messages(items) + [x.message]
  {}

  class Messenger {
    var oldest: Item?
    var youngest: Item?
    var count: nat                   // of submitted messages
    var queueSeverity: int
    ghost var items: seq<Item>

    ghost predicate Valid()
      reads this, items
    {
      Linked(items) && oldest == At(items, 0) && youngest == At(items, |items| - 1)
    }

    /** The messages, the oldest one first. */
    ghost function Queue(): seq<Message>
      reads this
    {
      Messages(items)
    }

    constructor ()
      ensures Valid() && Queue() == [] && count == 0 && fresh(items)
    {
      oldest, youngest, count, queueSeverity, items := null, null, 0, 0, [];
    }

    /** libdax_msgs_item_unlink with the start and the end of the queue */
    method Unlink(o: Item, ghost k: nat)
      requires Valid() && k < |items| && items[k] == o
      modifies this`oldest, this`youngest, this`items, items
      ensures Valid() && items == Without(old(items), k) && o.prev == null && o.next == null
    {
      hide Without, Linked;
      WithoutAt(items, k, 0);
      WithoutAt(items, k, |items| - 2);
      LinkedNeighbors(items);
      assert oldest == o <==> k == 0;
      assert youngest == o <==> k == |items| - 1;
      var prev, next := o.prev, o.next;
      Detach(o, items, k);
      if oldest == o {
        oldest := next;
      }
      if youngest == o {
        youngest := prev;
      }
      items := Without(items, k);
    }

    /** The first loop of libdax_msgs_obtain */
    method Search(severity: int, priority: int) returns (im: Item?, ghost d: nat, ghost i: nat)
      requires Valid()
      modifies this`oldest, this`youngest, this`items, items
      ensures Valid() && Within(items, old(items))
      ensures Searching(old(Queue()), Queue(), severity, priority, d, i) && i <= |items| && im == At(items, i)
      ensures im != null ==> Wanted(im.message, severity, priority)
    {
      hide Linked, At, Messages, Searching, Without;
      ghost var q := Queue();
      d, i := 0, 0;
      SearchStarts(q, severity, priority);
      AtStart(items);
      im := oldest;
      while im != null
        invariant Valid() && Searching(q, Queue(), severity, priority, d, i) && i <= |items| && im == At(items, i)
        invariant Within(items, old(items))
        decreases |q| - d
      {
        var nextIm := im.next;
        while im != null
          invariant Valid() && Searching(q, Queue(), severity, priority, d, i) && i <= |items| && im == At(items, i)
          invariant Within(items, old(items))
          decreases |q| - d
        {
          Neighbor(items, i);
          SearchAt(q, Queue(), severity, priority, d, i);
          nextIm := im.next;
          if im.message.severity >= severity {
            break;
          }
          SearchDeletes(q, Queue(), severity, priority, d, i);
          MessagesWithout(items, i);
          WithoutAt(items, i, i);
          WithoutFewer(items, i);
          Unlink(im, i);
          d := d + 1;
          im := nextIm;
        }
        if im == null {
          break;
        }
        if im.message.priority >= priority {
          break;
        }
        Neighbor(items, i);
        SearchAt(q, Queue(), severity, priority, d, i);
        SearchPasses(q, Queue(), severity, priority, d, i);
        im := nextIm;
        d, i := d + 1, i + 1;
      }
    }

    /** libdax_msgs_obtain */
    method Obtain(severity: int, priority: int) returns (ret: int, item: Item?)
      requires Valid()
      modifies this`oldest, this`youngest, this`items, items
      ensures Valid() && Within(items, old(items))
      ensures Queue() == Remaining(old(Queue()), severity, priority)
      ensures match Obtained(old(Queue()), severity, priority)
        case None => ret == 0 && item == null
        case Some(m) =>
          ret == 1 && item != null && item.message == m && item in old(items) && item !in items
            && item.next == item.prev == null
    {
      hide Linked, At, Messages, Searching, Obtained, Remaining, Without;
      ghost var q := Queue();
      ghost var d, i;
      item, d, i := Search(severity, priority);
      SearchAt(q, Queue(), severity, priority, d, i);
      if item == null {
        AtNull(items, i);
        SearchEnds(q, Queue(), severity, priority, d, i);
        return 0, null;
      }
      Neighbor(items, i);
      SearchEnds(q, Queue(), severity, priority, d, i);
      MessagesWithout(items, i);
      WithoutDistinct(items, i) by { LinkedNeighbors(items); }
      WithoutFewer(items, i);
      Unlink(item, i);
      ret := 1;
    }

    /** The new item becomes the youngest one. */
    method Enqueue(item: Item)
      requires Valid() && item !in items && item.prev == youngest && item.next == null
      modifies this`oldest, this`youngest, this`count, this`items, item, items
      ensures Valid() && items == old(items) + [item] && count == old(count) + 1
    {
      hide Linked, At;
      AtEnds(items, item);
      Append(item, items);
      if oldest == null {
        oldest := item;
      }
      youngest, count, items := item, count + 1, items + [item];
    }

    /** Without memory for its text, the new item leaves the list again. */
    method Withdraw(item: Item)
      requires Valid() && item !in items && item.prev == youngest && item.next == null
      modifies item, items
      ensures Valid()
    {
      hide Linked, At;
      ghost var all := items + [item];
      Append(item, items);
      Detach(item, all, |items|);
      assert Without(all, |items|) == items;
    }

    /** libdax_msgs_submit. Memory for the item or for its text may be lacking. */
    method Submit(message: Message, itemFails: bool, textFails: bool) returns (ret: int)
      requires Valid()
      modifies this`oldest, this`youngest, this`count, this`items, items
      ensures Valid() && forall o :: o in items ==> o in old(items) || fresh(o)
      ensures if message.severity < queueSeverity then ret == 0
              else if itemFails || textFails then ret == -1
              else ret == 1
      ensures if ret == 1 then Queue() == old(Queue()) + [message] && count == old(count) + 1
              else items == old(items) && count == old(count)
    {
      hide Linked, Messages, At;
      if message.severity < queueSeverity {
        return 0;
      }
      if itemFails {
        return -1;
      }
      var item := new Item(message, youngest);
      if textFails {
        Withdraw(item);
        return -1;
      }
      MessagesAppended(items, item);
      Enqueue(item);
      ret := 1;
    }
  }

  lemma AtStart(items: seq<Item>)
    ensures At(items, 0) == if items == [] then null else items[0]
  {}

  /** The element at a position of the list and its message. */
  lemma Neighbor(items: seq<Item>, i: nat)
    requires Linked(items) && At(items, i) != null
    ensures i < |items| && At(items, i) == items[i] && items[i].next == At(items, i + 1)
    ensures Messages(items)[i] == items[i].message
  {}

  lemma AtNull(items: seq<Item>, i: nat)
    requires At(items, i) == null
    ensures i >= |items|
  {}

  lemma AtEnds(items: seq<Item>, o: Item?)
    ensures At(items, 0) == null <==> items == []
    ensures o != null ==> At(items + [o], |items|) == o && At(items + [o], 0) == if items == [] then o else At(items, 0)
  {}

  /** The last lines of libdax_msgs_item_new with the youngest item as link. */
  method Append(o: Item, ghost items: seq<Item>)
    requires Linked(items) && o !in items && o.prev == At(items, |items| - 1) && o.next == null
    modifies items
    ensures Linked(items + [o]) && o.prev == old(o.prev) && o.next == null
  {
    var link := o.prev;
    LinkedNeighbors(items);
    if link != null {
      link.next := o;
    }
    AppendedLinked(items, o);
  }

  /** All elements except k have the neighbors which they have without element k. */
  ghost predicate Bypassed(items: seq<Item>, k: nat)
    reads items
    requires k < |items|
  {
    forall i :: 0 <= i < |items| && i != k ==>
      && items[i].prev == At(items, if i == k + 1 then k - 1 else i - 1)
      && items[i].next == At(items, if i == k - 1 then k + 1 else i + 1)
  }

  /** The neighbors of o get to know each other. */
  method Bypass(o: Item, ghost items: seq<Item>, ghost k: nat)
    requires Linked(items) && k < |items| && items[k] == o
    modifies items
    ensures Bypassed(items, k) && o.prev == old(o.prev) && o.next == old(o.next)
  {
    hide At;
    AtNeighbors(items, k);
    if o.prev != null {
      o.prev.next := o.next;
    }
    if o.next != null {
      o.next.prev := o.prev;
    }
  }

  lemma AtNeighbors(items: seq<Item>, k: nat)
    requires k < |items|
    ensures At(items, k - 1) == if k > 0 then items[k - 1] else null
    ensures At(items, k + 1) == if k + 1 < |items| then items[k + 1] else null
  {}

  /** libdax_msgs_item_unlink without the start and the end of the queue */
  method Detach(o: Item, ghost items: seq<Item>, ghost k: nat)
    requires Linked(items) && k < |items| && items[k] == o
    modifies items
    ensures o.prev == null && o.next == null && Linked(Without(items, k))
  {
    hide Without, At;
    Bypass(o, items, k);
    o.next, o.prev := null, null;
    WithoutLinked(items, k);
  }

  lemma LinkedNeighbors(items: seq<Item>)
    requires Linked(items)
    ensures Distinct(items)
    ensures forall i :: 0 <= i < |items| ==> items[i].prev == At(items, i - 1) && items[i].next == At(items, i + 1)
  {}
}
