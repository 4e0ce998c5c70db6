/** The singly linked lists of the network stack: a head pointer and structures with a next field. */
module Lists {
  import opened Seqs

  class Node<T> {
    const item: T
    var next: Node?<T>

    constructor (item: T)
      ensures this.item == item && next == null
    {
      this.item, next := item, null;
    }
  }

  ghost predicate LinksTo<T>(p: Node<T>, nodes: seq<Node<T>>, i: nat)
    requires i < |nodes|
    reads p
  {
    p.next == if i + 1 < |nodes| then nodes[i + 1] else null
  }

  ghost function Items<T>(nodes: seq<Node<T>>): (s: seq<T>)
    ensures |s| == |nodes| && forall i | 0 <= i < |s| :: s[i] == nodes[i].item
  {
    if nodes == [] then [] else [nodes[0].item] + Items(nodes[1..])
  }

  /** The place of a node in a list, or the length of the list if it is not in it. */
  ghost predicate IndexOf<T>(nodes: seq<Node<T>>, node: Node<T>, k: nat) {
    if k < |nodes| then nodes[k] == node else k == |nodes| && node !in nodes
  }

  class List<T> {
    var head: Node?<T>
    ghost var nodes: seq<Node<T>>

    constructor ()
      ensures Linked() && nodes == []
    {
      head, nodes := null, [];
    }

    /** The list runs through `nodes` in order. */
    ghost predicate Linked()
      reads this, nodes
    {
      && head == (if nodes == [] then null else nodes[0])
      && Distinct(nodes)
      && (forall i {:trigger LinksTo(nodes[i], nodes, i)} | 0 <= i < |nodes| :: LinksTo(nodes[i], nodes, i))
    }

    /** The pair (prev, curr) that a walk over pointers to next fields has reached after i steps. */
    ghost predicate At(i: nat, prev: Node?<T>, curr: Node?<T>)
      reads this
    {
      && i <= |nodes|
      && prev == (if i == 0 then null else nodes[i - 1])
      && curr == (if i == |nodes| then null else nodes[i])
    }

    /** route->next = *ptr; *ptr = route. */
    method Insert(node: Node<T>, prev: Node?<T>, curr: Node?<T>, ghost i: nat)
      requires Linked() && At(i, prev, curr) && node !in nodes
      modifies this, nodes, node
      ensures Linked() && nodes == old(nodes)[..i] + [node] + old(nodes)[i..]
    {
      node.next := curr;
      if prev == null {
        head := node;
      } else {
        assert LinksTo(nodes[i - 1], nodes, i - 1);
        prev.next := node;
      }
      ghost var was := nodes;
      nodes := was[..i] + [node] + was[i..];
      InsertedDistinct(was, i, node);
      forall j | 0 <= j < |nodes|
        ensures LinksTo(nodes[j], nodes, j)
      {
        if j != i {
          var k := if j < i then j else j - 1;
          assert nodes[j] == was[k] && old(LinksTo(nodes[k], nodes, k));
          assert k != i - 1 ==> nodes[j] != prev;
        }
      }
    }

    /** node->next = head; head = node. */
    method Push(node: Node<T>)
      requires Linked() && node !in nodes
      modifies this, node
      ensures Linked() && nodes == [node] + old(nodes)
      ensures Items(nodes) == [node.item] + Items(old(nodes))
    {
      node.next := head;
      head := node;
      ghost var was := nodes;
      nodes := [node] + was;
      assert nodes[1..] == was;
      forall j | 0 <= j < |nodes|
        ensures LinksTo(nodes[j], nodes, j)
      {
        if j > 0 {
          assert nodes[j] == was[j - 1] && old(LinksTo(nodes[j - 1], nodes, j - 1));
        }
      }
    }

    /** A walk that stops at a node of the list stops at its only position. */
    lemma {:induction false} Position(i: nat, k: nat)
      requires Linked() && i <= k < |nodes| && (i < |nodes| ==> nodes[i] == nodes[k])
      ensures i == k
    {}

    /** *ptr = node->next. */
    method Remove(node: Node<T>, prev: Node?<T>, ghost i: nat)
      requires Linked() && i < |nodes| && At(i, prev, node)
      modifies this, nodes
      ensures Linked() && nodes == Without(old(nodes), i)
      ensures node.next == old(node.next)
    {
      assert LinksTo(nodes[i], nodes, i);
      if prev == null {
        head := node.next;
      } else {
        assert LinksTo(nodes[i - 1], nodes, i - 1);
        prev.next := node.next;
      }
      ghost var was := nodes;
      WithoutDistinct(was, i);
      nodes := Without(was, i);
      forall j | 0 <= j < |nodes|
        ensures LinksTo(nodes[j], nodes, j)
      {
        var k := if j < i then j else j + 1;
        assert nodes[j] == was[k] && old(LinksTo(nodes[k], nodes, k));
        assert k != i - 1 ==> nodes[j] != prev;
        if j + 1 < |nodes| {
          assert nodes[j + 1] == was[if j + 1 < i then j + 1 else j + 2];
        }
      }
    }

    /** One step of a walk. */
    method Advance(curr: Node<T>, ghost prev: Node?<T>, ghost i: nat) returns (next: Node?<T>)
      requires Linked() && i < |nodes| && At(i, prev, curr)
      ensures At(i + 1, curr, next) && next == curr.next
    {
      assert LinksTo(nodes[i], nodes, i);
      next := curr.next;
    }
  }

  lemma {:induction false} InsertedDistinct<T>(s: seq<Node<T>>, i: nat, x: Node<T>)
    requires Distinct(s) && x !in s && i <= |s|
    ensures Distinct(s[..i] + [x] + s[i..])
  {
    var r := s[..i] + [x] + s[i..];
    forall a, b | 0 <= a < b < |r|
      ensures r[a] != r[b]
    {
      if a != i && b != i {
        assert s[if a < i then a else a - 1] != s[if b < i then b else b - 1];
      }
    }
  }

  lemma {:induction false} ItemsInserted<T>(nodes: seq<Node<T>>, i: nat, node: Node<T>)
    requires i <= |nodes|
    ensures Items(nodes[..i] + [node] + nodes[i..]) == Items(nodes)[..i] + [node.item] + Items(nodes)[i..]
  {
    hide Items;
  }

  lemma {:induction false} ItemsWithout<T>(nodes: seq<Node<T>>, k: nat)
    requires k < |nodes|
    ensures Items(Without(nodes, k)) == Without(Items(nodes), k)
  {
    hide Items;
  }
}
