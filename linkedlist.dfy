/** linkedlist.c: a doubly linked list between two sentinel nodes. The list
    owns its nodes; the data stays the caller's. */
module LinkedList {
  import opened Wrappers

  /** node_t. The sentinels carry no data (NULL). */
  class Node<T> {
    var data: Option<T>
    var next: Node?<T>
    var prev: Node?<T>

    /** node_create: a node with both links cleared. */
    constructor (data: Option<T>)
      ensures this.data == data && next == null && prev == null
    {
      this.data := data;
      next := null;
      prev := null;
    }
  }

  /** list_t: head and tail sentinels and the element count. Contents is
      what the list holds from front to back, Nodes the chain from head to
      tail, both sentinels included. */
  class List<T> {
    var head: Node<T>
    var tail: Node<T>
    var size: nat
    ghost var Contents: seq<T>
    ghost var Nodes: seq<Node<T>>
    ghost var Repr: set<object>

    ghost predicate Valid()
      reads this, Repr
    {
      this in Repr &&
      |Nodes| == |Contents| + 2 &&
      (forall i :: 0 <= i < |Nodes| ==> Nodes[i] in Repr) &&
      Nodes[0] == head && Nodes[|Nodes| - 1] == tail &&
      head.prev == null && tail.next == null &&
      head.data == None && tail.data == None &&
      (forall i :: 0 <= i < |Nodes| - 1 ==> Nodes[i].next == Nodes[i + 1] && Nodes[i + 1].prev == Nodes[i]) &&
      Distinct(Nodes) &&
      (forall i :: 0 <= i < |Contents| ==> Nodes[i + 1].data == Some(Contents[i])) &&
      size == |Contents|
    }

    /** ll_create: the two sentinels linked to each other, size 0. */
    constructor ()
      ensures Valid() && fresh(Repr)
      ensures Contents == [] && size == 0 && head.next == tail
    {
      var h := new Node(None);
      var t := new Node(None);
      h.next := t;
      t.prev := h;
      head, tail, size := h, t, 0;
      Contents := [];
      Nodes := [h, t];
      Repr := {this, h, t};
    }

    /** ll_size */
    function Size(): (n: nat)
      reads this, Repr
      requires Valid()
      ensures n == |Contents|
    {
      size
    }

    /** ll_empty */
    function Empty(): (b: bool)
      reads this, Repr
      requires Valid()
      ensures b <==> Contents == []
    {
      size == 0
    }

    /** ll_pop_front: NULL on an empty list, else the front element, unlinked. */
    method PopFront() returns (r: Option<T>)
      requires Valid()
      modifies Repr
      ensures Valid() && Repr == old(Repr)
      ensures old(Contents) == [] ==> r == None && Contents == []
      ensures old(Contents) != [] ==> r == Some(old(Contents)[0]) && Contents == old(Contents)[1..]
    {
      if Empty() {
        return None;
      }
      ghost var nodes := Nodes;
      var pop := head.next;
      assert pop == nodes[1];
      var after := pop.next;
      assert after == nodes[2];
      DistinctAt(nodes, 0);
      DistinctAt(nodes, 2);
      r := pop.data;
      after.prev := head;
      head.next := after;
      size := size - 1;
      Contents := Contents[1..];
      Nodes := nodes[..1] + nodes[2..];
      DistinctRemove(nodes, 1);
      assert forall i :: 1 <= i < |Nodes| ==> Nodes[i] == nodes[i + 1];
    }

    /** ll_pop_back: NULL on an empty list, else the back element, unlinked. */
    method PopBack() returns (r: Option<T>)
      requires Valid()
      modifies Repr
      ensures Valid() && Repr == old(Repr)
      ensures old(Contents) == [] ==> r == None && Contents == []
      ensures old(Contents) != [] ==> r == Some(old(Contents)[|old(Contents)| - 1]) && Contents == old(Contents)[..|old(Contents)| - 1]
    {
      if Empty() {
        return None;
      }
      ghost var nodes := Nodes;
      var k := |nodes| - 1;
      var pop := tail.prev;
      assert pop == nodes[k - 1];
      var before := pop.prev;
      assert before == nodes[k - 2];
      DistinctAt(nodes, k);
      DistinctAt(nodes, k - 2);
      r := pop.data;
      before.next := tail;
      tail.prev := before;
      size := size - 1;
      Contents := Contents[..|Contents| - 1];
      Nodes := nodes[..k - 1] + nodes[k..];
      DistinctRemove(nodes, k - 1);
      assert forall i :: 0 <= i < k - 1 ==> Nodes[i] == nodes[i];
    }

    /** The body of ll_push_front on a list: a new node right after the head
        sentinel. */
    method Prepend(data: T)
      requires Valid()
      modifies Repr
      ensures Valid() && fresh(Repr - old(Repr))
      ensures Contents == [data] + old(Contents)
    {
      ghost var nodes := Nodes;
      var h := head;
      var first := h.next;
      assert first == nodes[1];
      DistinctAt(nodes, 0);
      DistinctAt(nodes, 1);
      var n := new Node(Some(data));
      n.prev := h;
      n.next := first;
      first.prev := n;
      h.next := n;
      size := size + 1;
      Contents := [data] + Contents;
      Nodes := nodes[..1] + [n] + nodes[1..];
      Repr := Repr + {n};
      DistinctInsert(nodes, 1, n);
      forall i | 0 <= i < |Nodes| - 1
        ensures Nodes[i].next == Nodes[i + 1] && Nodes[i + 1].prev == Nodes[i]
      {
        if i >= 2 {
          assert Nodes[i] == nodes[i - 1] && Nodes[i + 1] == nodes[i];
        }
      }
    }
    /** The body of ll_push_back on a list: a new node right before the tail
        sentinel. */
    method Append(data: T)
      requires Valid()
      modifies Repr
      ensures Valid() && fresh(Repr - old(Repr))
      ensures Contents == old(Contents) + [data]
    {
      ghost var nodes := Nodes;
      var k := |nodes| - 1;
      var t := tail;
      var last := t.prev;
      assert last == nodes[k - 1];
      DistinctAt(nodes, k);
      DistinctAt(nodes, k - 1);
      var n := new Node(Some(data));
      n.next := t;
      n.prev := last;
      last.next := n;
      t.prev := n;
      size := size + 1;
      Contents := Contents + [data];
      Nodes := nodes[..k] + [n] + nodes[k..];
      Repr := Repr + {n};
      DistinctInsert(nodes, k, n);
      forall i | 0 <= i < |Nodes| - 1
        ensures Nodes[i].next == Nodes[i + 1] && Nodes[i + 1].prev == Nodes[i]
      {
        if i < k - 1 {
          assert Nodes[i] == nodes[i] && Nodes[i + 1] == nodes[i + 1];
        }
      }
    }
  }

  /** ll_push_front: false for a NULL list; otherwise the element goes in
      right after the head sentinel. */
  method PushFront<T>(ll: List?<T>, data: T) returns (ok: bool)
    requires ll != null ==> ll.Valid()
    modifies if ll == null then {} else ll.Repr
    ensures ok <==> ll != null
    ensures ll != null ==> ll.Valid() && fresh(ll.Repr - old(ll.Repr))
    ensures ll != null ==> ll.Contents == [data] + old(ll.Contents)
  {
    if ll == null {
      return false;
    }
    ll.Prepend(data);
    return true;
  }

  /** ll_push_back: false for a NULL list; otherwise the element goes in
      right before the tail sentinel. */
  method PushBack<T>(ll: List?<T>, data: T) returns (ok: bool)
    requires ll != null ==> ll.Valid()
    modifies if ll == null then {} else ll.Repr
    ensures ok <==> ll != null
    ensures ll != null ==> ll.Valid() && fresh(ll.Repr - old(ll.Repr))
    ensures ll != null ==> ll.Contents == old(ll.Contents) + [data]
  {
    if ll == null {
      return false;
    }
    ll.Append(data);
    return true;
  }

  /** No element occurs twice. */
  ghost predicate Distinct<T>(s: seq<T>) {
    forall i, j :: 0 <= i < j < |s| ==> s[i] != s[j]
  }

  lemma DistinctAt<T>(s: seq<T>, k: nat)
    requires Distinct(s) && k < |s|
    ensures forall i :: 0 <= i < |s| && i != k ==> s[i] != s[k]
  {
  }

  lemma DistinctInsert<T>(s: seq<T>, k: nat, x: T)
    requires Distinct(s) && k <= |s| && x !in s
    ensures Distinct(s[..k] + [x] + s[k..])
  {
    var t := s[..k] + [x] + s[k..];
    forall i, j | 0 <= i < j < |t|
      ensures t[i] != t[j]
    {
      if j < k || i > k {
        assert t[i] == s[if i < k then i else i - 1] && t[j] == s[if j < k then j else j - 1];
      } else if i == k {
        assert t[j] == s[j - 1];
      } else if j == k {
        assert t[i] == s[i];
      } else {
        assert t[i] == s[i] && t[j] == s[j - 1];
      }
    }
  }

  lemma DistinctRemove<T>(s: seq<T>, k: nat)
    requires Distinct(s) && k < |s|
    ensures Distinct(s[..k] + s[k + 1..])
  {
    var t := s[..k] + s[k + 1..];
    forall i, j | 0 <= i < j < |t|
      ensures t[i] != t[j]
    {
      assert t[i] == s[if i < k then i else i + 1] && t[j] == s[if j < k then j else j + 1];
    }
  }
}
