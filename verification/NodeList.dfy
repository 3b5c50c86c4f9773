/**
 * The doubly linked list of line numbers. `nodes` is the list as a sequence of
 * node objects, front first; every operation is specified by what it does to
 * the nodes and to the sequence of their values.
 */
module NodeList {
  import opened Machine

  /** s with the element at p moved to the end. */
  function MoveToEnd<T>(s: seq<T>, p: nat): (r: seq<T>)
    requires p < |s|
    ensures |r| == |s| && r[|s| - 1] == s[p]
    ensures forall i :: 0 <= i < p ==> r[i] == s[i]
    ensures forall i :: p <= i < |s| - 1 ==> r[i] == s[i + 1]
  {
    s[..p] + s[p + 1..] + [s[p]]
  }

  function Reverse<T>(s: seq<T>): (r: seq<T>)
    ensures |r| == |s|
    ensures forall i :: 0 <= i < |s| ==> r[i] == s[|s| - 1 - i]
  {
    if s == [] then [] else Reverse(s[1..]) + [s[0]]
  }

  class Node {
    var value: Word
    var previous: Node?
    var next: Node?

    constructor (value: Word, previous: Node?, next: Node?)
      ensures this.value == value && this.previous == previous && this.next == next
    {
      this.value := value;
      this.previous := previous;
      this.next := next;
    }
  }

  class List {
    var front: Node?
    var back: Node?
    ghost var nodes: seq<Node>

    ghost predicate Valid()
      reads this, nodes
    {
      && (forall i, j :: 0 <= i < j < |nodes| ==> nodes[i] != nodes[j])
      && (forall i {:trigger nodes[i].previous} :: 1 <= i < |nodes| ==> nodes[i].previous == nodes[i - 1])
      && (forall i {:trigger nodes[i].next} :: 0 <= i < |nodes| - 1 ==> nodes[i].next == nodes[i + 1])
      && if nodes == [] then front == null && back == null
         else front == nodes[0] && front.previous == null && back == nodes[|nodes| - 1] && back.next == null
    }

    ghost function Values(): (r: seq<Word>)
      reads this, nodes
      ensures |r| == |nodes|
      ensures forall i :: 0 <= i < |nodes| ==> r[i] == nodes[i].value
    {
      seq(|nodes|, i requires 0 <= i < |nodes| reads this, nodes => nodes[i].value)
    }

    /** init_list */
    constructor ()
      ensures Valid() && nodes == [] && Values() == []
    {
      front, back := null, null;
      nodes := [];
    }

    /** is_empty_list: nonzero when empty, and also when the two ends disagree. */
    method IsEmpty() returns (r: int)
      ensures Valid() ==> (r != 0 <==> nodes == [])
      ensures r == 3 <==> (front == null) != (back == null)
    {
      if back == null && front == null {
        return 1;
      } else if back == null || front == null {
        return 3;
      } else {
        return 0;
      }
    }

    /** clear_list: the loop ends because the rest of the list gets shorter. */
    method Clear()
      requires Valid()
      modifies this, nodes
      ensures Valid() && nodes == [] && Values() == []
      ensures forall n :: n in old(nodes) ==> n.value == 0 && n.next == null && n.previous == null
    {
      var current := front;
      ghost var done := 0;
      while current != null
        invariant 0 <= done <= |nodes| && nodes == old(nodes)
        invariant forall i, j :: 0 <= i < j < |nodes| ==> nodes[i] != nodes[j]
        invariant if done == |nodes| then current == null else current == nodes[done]
        invariant forall i :: 0 <= i < done ==>
          nodes[i].value == 0 && nodes[i].next == null && nodes[i].previous == null
        invariant forall i {:trigger nodes[i].next} :: done <= i < |nodes| - 1 ==> nodes[i].next == nodes[i + 1]
        invariant done < |nodes| ==> nodes[|nodes| - 1].next == null
        decreases |nodes| - done
      {
        var temp := current.next;
        current.next := null;
        current.previous := null;
        current.value := 0;
        current := temp;
        done := done + 1;
      }
      front := null;
      back := null;
      nodes := [];
    }

    method PushBack(value: Word) returns (added: Node)
      requires Valid()
      modifies this, nodes
      ensures Valid() && fresh(added) && nodes == old(nodes) + [added]
      ensures Values() == old(Values()) + [value]
    {
      added := new Node(value, null, null);
      var empty := IsEmpty();
      if empty != 0 {
        back := added;
        front := added;
      } else {
        back.next := added;
        added.previous := back;
        back := added;
      }
      nodes := nodes + [added];
    }

    method PushFront(value: Word) returns (added: Node)
      requires Valid()
      modifies this, nodes
      ensures Valid() && fresh(added) && nodes == [added] + old(nodes)
      ensures Values() == [value] + old(Values())
    {
      added := new Node(value, null, null);
      var empty := IsEmpty();
      if empty != 0 {
        back := added;
        front := added;
      } else {
        front.previous := added;
        added.next := front;
        front := added;
      }
      ghost var was := nodes;
      nodes := [added] + was;
      assert forall i :: 1 <= i < |nodes| ==> nodes[i] == was[i - 1];
      forall i | 1 <= i < |nodes| ensures nodes[i].previous == nodes[i - 1] {
        assert nodes[i] == was[i - 1];
        assert i > 1 ==> was[i - 1].previous == was[i - 2] == nodes[i - 1];
      }
      forall i | 1 <= i < |nodes| ensures Values()[i] == old(Values())[i - 1] {
        assert nodes[i] == was[i - 1];
      }
    }

    method PopFront()
      requires Valid()
      modifies this, nodes
      ensures Valid()
      ensures nodes == if old(nodes) == [] then [] else old(nodes)[1..]
      ensures Values() == if old(Values()) == [] then [] else old(Values())[1..]
    {
      var empty := IsEmpty();
      if empty == 0 {
        if front == back {
          assert |nodes| == 1;
          front.value := 0;
          front, back := null, null;
        } else {
          var newFront := front.next;
          newFront.previous := null;
          front.next := null;
          front.value := 0;
          front := newFront;
        }
        nodes := nodes[1..];
      }
    }

    method PopBack()
      requires Valid()
      modifies this, nodes
      ensures Valid()
      ensures nodes == if old(nodes) == [] then [] else old(nodes)[..|old(nodes)| - 1]
      ensures Values() == if old(Values()) == [] then [] else old(Values())[..|old(nodes)| - 1]
    {
      var empty := IsEmpty();
      if empty == 0 {
        if front == back {
          assert |nodes| == 1;
          back.value := 0;
          front, back := null, null;
        } else {
          var newBack := back.previous;
          newBack.next := null;
          back.previous := null;
          back.value := 0;
          back := newBack;
        }
        nodes := nodes[..|nodes| - 1];
      }
    }

    /**
     * Moving the front node really appends a new node with its value and drops
     * the old one; a middle node is relinked; the last node stays.
     */
    method MoveBack(node: Node, ghost p: nat)
      requires Valid() && p < |nodes| && nodes[p] == node
      modifies this, nodes
      ensures Valid() && Values() == MoveToEnd(old(Values()), p)
      ensures p == 0 && |old(nodes)| > 1 ==> fresh(back) && nodes == old(nodes)[1..] + [back]
      ensures p != 0 ==> nodes == MoveToEnd(old(nodes), p)
      ensures forall n :: n in nodes && n !in old(nodes) ==> fresh(n)
    {
      var empty := IsEmpty();
      if empty == 0 && back != front {
        if front == node {
          ReplaceFront();
          return;
        }
        if node.next == null {
          return;
        }
        MoveMiddle(node, p);
      }
    }

    method MoveMiddle(node: Node, ghost p: nat)
      requires Valid() && 0 < p < |nodes| - 1 && nodes[p] == node
      modifies this, nodes
      ensures Valid() && nodes == MoveToEnd(old(nodes), p)
      ensures Values() == MoveToEnd(old(Values()), p)
    {
      ghost var was := nodes;
      Relink(node, p);
      forall i | 0 <= i < |nodes| ensures Values()[i] == MoveToEnd(old(Values()), p)[i] {
        assert nodes[i] in was;
      }
    }

    /** The front case: a new node at the back takes the front node's value, and the front node goes. */
    method ReplaceFront()
      requires Valid() && |nodes| > 1
      modifies this, nodes
      ensures Valid() && fresh(back) && nodes == old(nodes)[1..] + [back]
      ensures Values() == MoveToEnd(old(Values()), 0)
    {
      var added := PushBack(front.value);
      PopFront();
    }

    method Relink(node: Node, ghost p: nat)
      requires Valid() && 0 < p < |nodes| - 1 && nodes[p] == node
      modifies this, nodes
      ensures Valid() && nodes == MoveToEnd(old(nodes), p)
      ensures forall n :: n in old(nodes) ==> n.value == old(n.value)
    {
      node.previous.next := node.next;
      node.next.previous := node.previous;
      node.next := null;
      node.previous := back;
      back.next := node;
      back := node;
      nodes := MoveToEnd(nodes, p);
    }

    /** The values in the order for_all_nodes visits them, and their number. */
    method Traverse() returns (seen: seq<Word>, counter: nat)
      requires Valid()
      ensures seen == Values() && counter == |nodes|
    {
      seen, counter := [], 0;
      var current := front;
      while current != null
        invariant counter == |seen| <= |nodes| && seen == Values()[..counter]
        invariant if counter == |nodes| then current == null else current == nodes[counter]
        decreases |nodes| - counter
      {
        counter := counter + 1;
        seen := seen + [current.value];
        current := current.next;
      }
    }

    /** The values in the order for_all_nodes_reverse visits them. */
    method TraverseReverse() returns (seen: seq<Word>, counter: nat)
      requires Valid()
      ensures seen == Reverse(Values()) && counter == |nodes|
    {
      seen, counter := [], 0;
      var current := back;
      while current != null
        invariant counter == |seen| <= |nodes|
        invariant forall i :: 0 <= i < counter ==> seen[i] == nodes[|nodes| - 1 - i].value
        invariant if counter == |nodes| then current == null else current == nodes[|nodes| - 1 - counter]
        decreases |nodes| - counter
      {
        counter := counter + 1;
        seen := seen + [current.value];
        current := current.previous;
      }
    }
  }
}
