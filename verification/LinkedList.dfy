/** The doubly-linked list of line numbers (list.h, list.c). */
module LinkedList {
  import opened Sequences
  import ListText

  class Node {
    const value: nat  // nothing writes it once the node is made
    var previous: Node?
    var next: Node?

    /** new_node: a zeroed node with a value. */
    constructor (value: nat)
      ensures this.value == value && previous == null && next == null
    {
      this.value := value;
      previous := null;
      next := null;
    }
  }

  /** The values held by nodes, in order. */
  ghost function ValuesOf(nodes: seq<Node>): (r: seq<nat>)
    ensures |r| == |nodes| && forall i :: 0 <= i < |nodes| ==> r[i] == nodes[i].value
  {
    seq(|nodes|, i requires 0 <= i < |nodes| => nodes[i].value)
  }

  function RemoveAt<T>(s: seq<T>, i: nat): seq<T>
    requires i < |s|
  {
    s[..i] + s[i + 1..]
  }

  /** Element `i` goes to the end. */
  function Touch<T>(s: seq<T>, i: nat): seq<T>
    requires i < |s|
  {
    RemoveAt(s, i) + [s[i]]
  }

  lemma TouchAt<T>(s: seq<T>, i: nat, k: nat)
    requires i < |s| && k < |s|
    ensures Touch(s, i)[k] == s[if k < i then k else if k < |s| - 1 then k + 1 else i]
  {
  }

  lemma TouchStaysIn<T>(s: seq<T>, i: nat, all: set<T>)
    requires i < |s| && forall k :: 0 <= k < |s| ==> s[k] in all
    ensures var touched := Touch(s, i); forall k :: 0 <= k < |touched| ==> touched[k] in all
  {
    forall k | 0 <= k < |s|
      ensures Touch(s, i)[k] in all
    {
      TouchAt(s, i, k);
    }
  }

  lemma ValuesOfTouched(nodes: seq<Node>, i: nat)
    requires i < |nodes|
    ensures ValuesOf(Touch(nodes, i)) == Touch(ValuesOf(nodes), i)
  {
  }

  function Reverse<T>(s: seq<T>): (r: seq<T>)
    ensures |r| == |s| && forall i :: 0 <= i < |s| ==> r[i] == s[|s| - 1 - i]
  {
    if s == [] then [] else Reverse(s[1..]) + [s[0]]
  }

  class List {
    var front: Node?
    var back: Node?

    /** The nodes from front to back. */
    ghost var nodes: seq<Node>

    ghost predicate Distinct() reads this {
      forall i, j :: 0 <= i < j < |nodes| ==> nodes[i] != nodes[j]
    }

    ghost predicate Linked() reads this, nodes {
      && (forall i {:trigger nodes[i].next} :: 0 <= i < |nodes| ==>
            nodes[i].next == if i + 1 < |nodes| then nodes[i + 1] else null)
      && (forall i {:trigger nodes[i].previous} :: 0 <= i < |nodes| ==>
            nodes[i].previous == if i > 0 then nodes[i - 1] else null)
    }

    /** Well formed: `previous` is inverse to `next`, both ends stop, and front and back
        are the end nodes, or both null. */
    ghost predicate Valid() reads this, nodes {
      && Distinct() && Linked()
      && front == (if nodes == [] then null else nodes[0])
      && back == (if nodes == [] then null else nodes[|nodes| - 1])
    }

    /** The nodes are all in `spine`. */
    ghost predicate Within(spine: set<Node>) reads this {
      forall i :: 0 <= i < |nodes| ==> nodes[i] in spine
    }

    ghost function Values(): seq<nat> reads this {
      ValuesOf(nodes)
    }

    /** init_list */
    constructor ()
      ensures Valid() && nodes == []
    {
      front := null;
      back := null;
      nodes := [];
    }

    /** is_empty_list */
    method IsEmpty() returns (empty: bool)
      requires Valid()
      ensures empty <==> Values() == []
    {
      empty := front == null && back == null;
    }

    /** place_node_at_back, on a node that is not in the list, which must not be empty. */
    method PlaceNodeAtBack(node: Node)
      requires Valid() && nodes != [] && node !in nodes
      modifies this, nodes, node
      ensures Valid() && nodes == old(nodes) + [node]
      ensures front == old(front) && back == node && node.next == null
      ensures node.previous == old(back) && old(back).next == node
    {
      back.next := node;
      node.previous := back;
      node.next := null;
      back := node;
      nodes := nodes + [node];
    }

    /** push_back */
    method PushBack(value: nat) returns (node: Node)
      requires Valid()
      modifies this, nodes
      ensures fresh(node) && Valid() && nodes == old(nodes) + [node]
      ensures Values() == old(Values()) + [value]
      ensures node.value == value && back == node && node.next == null && node.previous == old(back)
      ensures if old(back) == null then front == node else front == old(front) && old(back).next == node
    {
      node := new Node(value);
      if front == null {
        front := node;
        back := node;
        nodes := [node];
      } else {
        PlaceNodeAtBack(node);
      }
      assert Values() == old(Values()) + [value];
    }

    /** push_front */
    method PushFront(value: nat) returns (node: Node)
      requires Valid()
      modifies this, nodes
      ensures fresh(node) && Valid() && nodes == [node] + old(nodes)
      ensures Values() == [value] + old(Values())
      ensures node.value == value && front == node && node.previous == null && node.next == old(front)
      ensures if old(front) == null then back == node else back == old(back) && old(front).previous == node
    {
      node := new Node(value);
      if back == null {
        front := node;
        back := node;
        nodes := [node];
      } else {
        front.previous := node;
        node.next := front;
        node.previous := null;
        front := node;
        nodes := [node] + nodes;
      }
      assert Values() == [value] + old(Values());
    }

    /** pop_back. The last node leaves the list; an empty list stays empty. */
    method PopBack()
      requires Valid()
      modifies this, nodes
      ensures Valid()
      ensures nodes == if old(nodes) == [] then [] else old(nodes)[..|old(nodes)| - 1]
      ensures Values() == if old(nodes) == [] then [] else old(Values())[..|old(nodes)| - 1]
      ensures old(back) != null ==> back == old(back.previous)
      ensures if back == null then front == null else front == old(front) && back.next == null
    {
      if back != null {
        nodes := nodes[..|nodes| - 1];
        if back.previous == null {
          front, back := null, null;
        } else {
          back := back.previous;
          back.next := null;
        }
      }
      assert Values() == if old(nodes) == [] then [] else old(Values())[..|old(nodes)| - 1];
    }

    /** pop_front. The first node leaves the list; an empty list stays empty. */
    method PopFront()
      requires Valid()
      modifies this, nodes
      ensures Valid()
      ensures nodes == if old(nodes) == [] then [] else old(nodes)[1..]
      ensures Values() == if old(nodes) == [] then [] else old(Values())[1..]
      ensures old(front) != null ==> front == old(front.next)
      ensures if front == null then back == null else back == old(back) && front.previous == null
    {
      if front != null {
        nodes := nodes[1..];
        if front.next == null {
          front, back := null, null;
        } else {
          front := front.next;
          front.previous := null;
        }
      }
      assert Values() == if old(nodes) == [] then [] else old(Values())[1..];
    }

    /** The first branch of move_back: take out a node between two others. */
    method UnlinkInterior(node: Node, ghost i: nat)
      requires Valid() && 0 < i < |nodes| - 1 && node == nodes[i]
      modifies this, nodes
      ensures Valid() && nodes == RemoveAt(old(nodes), i) && node !in nodes
      ensures front == old(front) && back == old(back)
    {
      node.previous.next := node.next;
      node.next.previous := node.previous;
      nodes := RemoveAt(nodes, i);
    }

    /** The second branch of move_back: take out the first of several nodes. */
    method UnlinkFront(node: Node)
      requires Valid() && |nodes| > 1 && node == nodes[0]
      modifies this, nodes
      ensures Valid() && nodes == RemoveAt(old(nodes), 0) && node !in nodes
      ensures front == old(node.next) && back == old(back)
    {
      front := node.next;
      front.previous := null;
      nodes := RemoveAt(nodes, 0);
    }

    /** move_back, on the node at position `i`: front, interior, back or sole node. The
        same node object moves to the end and the others keep their order. */
    method MoveBack(node: Node, ghost i: nat)
      requires Valid() && i < |nodes| && node == nodes[i]
      modifies this, nodes
      ensures Valid() && nodes == Touch(old(nodes), i)
      ensures Values() == Touch(old(Values()), i)
      ensures back == node
    {
      ghost var before := nodes;
      assert (node.previous == null <==> i == 0) && (node.next == null <==> i == |nodes| - 1);
      if node.previous != null && node.next != null {
        UnlinkInterior(node, i);
        PlaceNodeAtBack(node);
      } else if node.previous == null && node.next != null {
        UnlinkFront(node);
        PlaceNodeAtBack(node);
      }
      assert nodes == Touch(before, i);
      ValuesOfTouched(before, i);
    }

    /** print_list: the text it writes, with the values it visits, and the count it
        returns. */
    method Forward() returns (output: string, visited: seq<nat>, count: nat)
      requires Valid()
      ensures visited == Values() && count == |Values()|
      ensures output == ListText.Text(Values())
    {
      output, visited, count := "(", [], 0;
      ghost var values := Values();
      var node := front;
      while node != null
        invariant count <= |nodes| && node == (if count < |nodes| then nodes[count] else null)
        invariant Printed(values, count, output, visited)
        decreases |nodes| - count
      {
        ItemPrinted(values, count, output, visited);
        output := output + ListText.Decimal(node.value);
        if node.next == null {
          output := output + ")";
        } else {
          output := output + ", ";
        }
        visited := visited + [node.value];
        node := node.next;
        count := count + 1;
      }
    }

    /** print_reverse_list: the mirror image of print_list. */
    method Backward() returns (output: string, visited: seq<nat>, count: nat)
      requires Valid()
      ensures visited == Reverse(Values()) && count == |Values()|
      ensures output == ListText.Text(Reverse(Values()))
    {
      output, visited, count := "(", [], 0;
      ghost var mirror := Reverse(Values());
      var node := back;
      ghost var left := |nodes|;
      while node != null
        invariant left >= 0 && left + count == |nodes| && node == (if left > 0 then nodes[left - 1] else null)
        invariant Printed(mirror, count, output, visited)
        decreases left
      {
        ItemPrinted(mirror, count, output, visited);
        Mirrored(Values(), left - 1);
        output := output + ListText.Decimal(node.value);
        if node.previous == null {
          output := output + ")";
        } else {
          output := output + ", ";
        }
        visited := visited + [node.value];
        node := node.previous;
        count := count + 1;
        left := left - 1;
      }
    }
  }

  /** How far a printing loop has come after `count` of the values. */
  ghost predicate Printed(values: seq<nat>, count: nat, output: string, visited: seq<nat>) {
    && count <= |values| && visited == values[..count]
    && output + ListText.Items(values[count..]) == ListText.Text(values)
  }

  /** One turn of the printing loops. */
  lemma ItemPrinted(values: seq<nat>, count: nat, output: string, visited: seq<nat>)
    requires Printed(values, count, output, visited) && count < |values|
    ensures var number, mark := ListText.Decimal(values[count]), if count + 1 == |values| then ")" else ", ";
            Printed(values, count + 1, output + number + mark, visited + [values[count]])
  {
    var number, mark := ListText.Decimal(values[count]), if count + 1 == |values| then ")" else ", ";
    assert values[count..][1..] == values[count + 1..];
    ConcatAssociative(output, number, mark + ListText.Items(values[count + 1..]));
    ConcatAssociative(output + number, mark, ListText.Items(values[count + 1..]));
  }

  lemma Mirrored<T>(s: seq<T>, i: nat)
    requires i < |s|
    ensures Reverse(s)[|s| - 1 - i] == s[i]
  {
  }

  lemma ReverseTwice<T>(s: seq<T>)
    ensures Reverse(Reverse(s)) == s
  {
  }

  // ------------------------------------------------------------ sequences of operations

  datatype Op = PushBackOp(value: nat) | PushFrontOp(value: nat) | PopBackOp | PopFrontOp | MoveBackOp(at: nat)

  /** What one operation does to the values. Moving needs a node to move. */
  function Apply(s: seq<nat>, op: Op): seq<nat> {
    match op
    case PushBackOp(v) => s + [v]
    case PushFrontOp(v) => [v] + s
    case PopBackOp => if s == [] then [] else s[..|s| - 1]
    case PopFrontOp => if s == [] then [] else s[1..]
    case MoveBackOp(i) => if i < |s| then Touch(s, i) else s
  }

  function Replay(ops: seq<Op>): seq<nat> {
    if ops == [] then [] else Apply(Replay(ops[..|ops| - 1]), ops[|ops| - 1])
  }

  /** The node at a position, reached as the TLB reaches it: by links alone. */
  method NodeAt(list: List, i: nat) returns (node: Node?)
    requires list.Valid()
    ensures node == if i < |list.nodes| then list.nodes[i] else null
  {
    node := list.front;
    var k := 0;
    while node != null && k < i
      invariant k <= i && k <= |list.nodes|
      invariant node == (if k < |list.nodes| then list.nodes[k] else null)
      decreases i - k
    {
      node := node.next;
      k := k + 1;
    }
  }

  /** One operation, on a list whose nodes are in `before`. */
  method Perform(list: List, op: Op, ghost before: set<Node>) returns (ghost spine: set<Node>)
    requires list.Valid() && list.Within(before)
    modifies list, before
    ensures list.Valid() && list.Within(spine) && fresh(spine - before)
    ensures list.Values() == Apply(old(list.Values()), op)
  {
    spine := before;
    match op {
      case PushBackOp(v) =>
        var n := list.PushBack(v);
        spine := spine + {n};
      case PushFrontOp(v) =>
        var n := list.PushFront(v);
        spine := spine + {n};
      case PopBackOp => list.PopBack();
      case PopFrontOp => list.PopFront();
      case MoveBackOp(i) =>
        var node := NodeAt(list, i);
        if node != null {
          TouchStaysIn(list.nodes, i, spine);
          list.MoveBack(node, i);
        }
    }
  }

  /** Any sequence of operations on a new list leaves it well formed, holding what the
      same operations leave in a sequence, in both directions. */
  method PerformAll(ops: seq<Op>) returns (forward: seq<nat>, backward: seq<nat>)
    ensures forward == Replay(ops)
    ensures backward == Reverse(forward) && forward == Reverse(backward)
  {
    var list := new List();
    ghost var spine: set<Node> := {};
    for k := 0 to |ops|
      invariant fresh(list) && fresh(spine) && list.Valid() && list.Within(spine)
      invariant list.Values() == Replay(ops[..k])
    {
      spine := Perform(list, ops[k], spine);
      assert ops[..k + 1][..k] == ops[..k];
    }
    assert ops[..|ops|] == ops;
    var output, count;
    output, forward, count := list.Forward();
    output, backward, count := list.Backward();
    ReverseTwice(forward);
  }
}
