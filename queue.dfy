/** queue.c: a FIFO queue on the doubly linked list, entering at the front of
    the list and leaving from its back. */
module Queue {
  import opened LinkedList

  /** The elements of s in the opposite order. */
  function Reverse<T>(s: seq<T>): (r: seq<T>)
    ensures |r| == |s|
  {
    if s == [] then [] else Reverse(s[1..]) + [s[0]]
  }

  lemma ReversePrepend<T>(x: T, s: seq<T>)
    ensures Reverse([x] + s) == Reverse(s) + [x]
  {
    assert ([x] + s)[1..] == s;
  }

  /** The back of a sequence is the front of its reverse, and dropping it
      drops the front of the reverse. */
  lemma {:induction false} ReverseLast<T>(s: seq<T>)
    requires s != []
    ensures Reverse(s)[0] == s[|s| - 1]
    ensures Reverse(s)[1..] == Reverse(s[..|s| - 1])
  {
    if |s| > 1 {
      ReverseLast(s[1..]);
      assert s[1..][..|s| - 2] == s[..|s| - 1][1..];
    }
  }

  /** queue_t. Contents lists the waiting elements oldest first; the list
      holds them newest first. */
  class Queue<T> {
    var items: List<T>
    ghost var Contents: seq<T>
    ghost var Repr: set<object>

    ghost predicate Valid()
      reads this, Repr
    {
      this in Repr && items in Repr && items.Repr <= Repr && this !in items.Repr &&
      items.Valid() && Contents == Reverse(items.Contents)
    }

    /** queue_create */
    constructor ()
      ensures Valid() && fresh(Repr)
      ensures Contents == []
    {
      items := new List();
      Contents := [];
      new;
      Repr := {this} + items.Repr;
    }

    /** queue_size */
    function Size(): (n: nat)
      reads this, Repr
      requires Valid()
      ensures n == |Contents|
    {
      items.Size()
    }

    /** queue_empty */
    function Empty(): (b: bool)
      reads this, Repr
      requires Valid()
      ensures b <==> Contents == []
    {
      items.Empty()
    }
  }

  /** enqueue: false for a NULL queue; otherwise the element joins the end of
      the waiting line. */
  method Enqueue<T>(q: Queue?<T>, data: T) returns (ok: bool)
    requires q != null ==> q.Valid()
    modifies if q == null then {} else q.Repr
    ensures ok <==> q != null
    ensures q != null ==> q.Valid() && fresh(q.Repr - old(q.Repr))
    ensures q != null ==> q.Contents == old(q.Contents) + [data]
  {
    if q == null {
      return false;
    }
    ok := PushFront(q.items, data);
    ReversePrepend(data, old(q.items.Contents));
    q.Contents := q.Contents + [data];
    q.Repr := q.Repr + q.items.Repr;
  }

  /** dequeue: false for a NULL or empty queue, leaving *data as it was;
      otherwise the oldest element leaves the line and is stored in *data. */
  method Dequeue<T>(q: Queue?<T>, data: T) returns (ok: bool, out: T)
    requires q != null ==> q.Valid()
    modifies if q == null then {} else q.Repr
    ensures ok <==> q != null && old(q.Contents) != []
    ensures q != null ==> q.Valid() && q.Repr == old(q.Repr)
    ensures !ok ==> out == data && (q != null ==> q.Contents == old(q.Contents))
    ensures ok ==> out == old(q.Contents)[0] && q.Contents == old(q.Contents)[1..]
  {
    if q == null || q.Empty() {
      return false, data;
    }
    var r := q.items.PopBack();
    ReverseLast(old(q.items.Contents));
    q.Contents := q.Contents[1..];
    return true, r.value;
  }
}
