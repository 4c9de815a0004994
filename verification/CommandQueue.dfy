/** The spooler's queue of play commands: a linked list with a pointer to each end. */
module CommandQueue {
  import opened Wrappers

  datatype Command = Command(file: string, rate: int)

  class CQueueItem {
    var c: Option<Command>
    var next: CQueueItem?
    /** False once the item is deleted: nothing may follow a pointer to it then. */
    ghost var alive: bool

    constructor (com: Command)
      ensures c == Some(com) && next == null && alive
    {
      c, next, alive := Some(com), null, true;
    }

    /** Deleting an item deletes every item it still leads to. */
    method Delete(ghost chain: seq<CQueueItem>)
      requires chain != [] && chain[0] == this && Linked(chain, null)
      requires forall n :: n in chain ==> n.alive
      modifies chain
      ensures forall n :: n in chain ==> !n.alive && n.next == old(n.next) && n.c == old(n.c)
      decreases |chain|
    {
      if next != null {
        assert chain[1] == next;
        next.Delete(chain[1..]);
      }
      alive := false;
      assert forall n :: n in chain ==> n == this || n in chain[1..];
    }
  }

  /** The items follow each other, and the last one leads to `end`. */
  ghost predicate Linked(chain: seq<CQueueItem>, end: CQueueItem?)
    reads chain
  {
    && (forall i, j :: 0 <= i < j < |chain| ==> chain[i] != chain[j])
    && forall i {:trigger chain[i].next} :: 0 <= i < |chain| ==>
         chain[i].next == if i + 1 < |chain| then chain[i + 1] else end
  }

  class CQueue {
    var head: CQueueItem?
    var tail: CQueueItem?
    ghost var items: seq<CQueueItem>

    /** The tail is only right while there is an item: it dangles after the last one is popped. */
    ghost predicate Valid()
      reads this, items
    {
      && head == (if items == [] then null else items[0])
      && (items != [] ==> tail == items[|items| - 1])
      && Linked(items, null)
      && (forall i {:trigger items[i].alive} {:trigger items[i].c} ::
            0 <= i < |items| ==> items[i].alive && items[i].c.Some?)
    }

    ghost function Repr(): set<object>
      reads this
    {
      var nodes: set<object> := set n: CQueueItem | n in items;
      {this} + nodes
    }

    ghost function Contents(): (s: seq<Command>)
      requires Valid()
      reads this, items
      ensures |s| == |items|
    {
      seq(|items|, i requires 0 <= i < |items| reads this, items requires Valid() => items[i].c.value)
    }

    constructor ()
      ensures Valid() && Contents() == [] && fresh(Repr())
    {
      head, tail, items := null, null, [];
    }

    method Push(c: Command)
      requires Valid()
      modifies this, items
      ensures Valid() && fresh(Repr() - old(Repr()))
      ensures Contents() == old(Contents()) + [c]
    {
      var n := new CQueueItem(c);
      if head == null {
        head, tail := n, n;
      } else {
        assert tail.alive;
        tail.next := n;
        tail := n;
      }
      items := items + [n];
    }

    /** The popped item is unlinked before it is deleted, so only it is deleted. */
    method Pop() returns (r: Option<Command>)
      requires Valid()
      modifies this, items
      ensures Valid() && Repr() <= old(Repr())
      ensures if old(Contents()) == [] then r == None && Contents() == []
              else r == Some(old(Contents())[0]) && Contents() == old(Contents())[1..]
    {
      if head == null {
        return None;
      }
      var h := head;
      assert h.alive;
      r := h.c;
      h.c := None;
      head := head.next;
      h.next := null;
      h.Delete([h]);
      items := items[1..];
      assert forall n :: n in items ==> n in old(items) && n != h;
    }

    method Length() returns (i: nat)
      requires Valid()
      ensures i == |Contents()|
    {
      i := 0;
      var t := head;
      while t != null
        invariant i <= |items| && t == if i < |items| then items[i] else null
        decreases |items| - i
      {
        assert t.alive;
        t := t.next;
        i := i + 1;
      }
    }

    /** Every file in the queue is unlinked, in order, and the list is deleted. */
    method Clear() returns (unlinked: seq<string>)
      requires Valid()
      modifies this, items
      ensures Valid() && Contents() == [] && Repr() <= old(Repr())
      ensures unlinked == Files(old(Contents()))
      ensures forall n :: n in old(items) ==> !n.alive
    {
      unlinked := [];
      var t := head;
      while t != null
        invariant |unlinked| <= |items| && t == if |unlinked| < |items| then items[|unlinked|] else null
        invariant forall k :: 0 <= k < |unlinked| ==> unlinked[k] == Contents()[k].file
        decreases |items| - |unlinked|
      {
        assert t.alive;
        unlinked := unlinked + [t.c.value.file];
        t := t.next;
      }
      if head != null {
        head.Delete(items);
      }
      head, tail, items := null, null, [];
    }
  }

  function Files(cs: seq<Command>): seq<string> {
    seq(|cs|, i requires 0 <= i < |cs| => cs[i].file)
  }
}
