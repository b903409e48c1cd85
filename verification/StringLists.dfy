/** The lists of finished lines (src/rb_lists.h). */
module StringLists {
  import opened Printbuf

  class StringList {
    const line: Printbuf
    const clientMac: nat
    var next: StringList?

    constructor (line: Printbuf, clientMac: nat)
      ensures this.line == line && this.clientMac == clientMac && next == null
    {
      this.line, this.clientMac, next := line, clientMac, null;
    }
  }

  /** The list that starts at `head` consists of these nodes, in order, and ends. */
  ghost predicate IsList(head: StringList?, nodes: seq<StringList>)
    reads nodes
  {
    if nodes == [] then head == null
    else
      && head == nodes[0]
      && (forall k | 0 <= k < |nodes| - 1 :: nodes[k].next == nodes[k + 1])
      && nodes[|nodes| - 1].next == null
  }

  /** The nodes of a list that ends are all different. */
  lemma {:induction false} NodesDiffer(head: StringList?, nodes: seq<StringList>, i: nat, j: nat)
    requires IsList(head, nodes) && i < j < |nodes|
    ensures nodes[i] != nodes[j]
    decreases |nodes| - j
  {
    assert nodes[i].next == nodes[i + 1];
    if j < |nodes| - 1 {
      assert nodes[j].next == nodes[j + 1];
      NodesDiffer(head, nodes, i + 1, j + 1);
    }
  }

  /** string_list_concat: walks to the last node and links the second list after it. The result
      is the two lists one after the other, node for node. */
  method Concat(s1: StringList?, s2: StringList?, ghost a: seq<StringList>, ghost b: seq<StringList>)
      returns (head: StringList?)
    requires IsList(s1, a) && IsList(s2, b) && forall n | n in a :: n !in b
    modifies a
    ensures IsList(head, a + b)
  {
    if s2 == null {
      assert a + b == a;
      return s1;
    }
    if s1 == null {
      assert a + b == b;
      return s2;
    }
    var node: StringList := s1;
    ghost var k := 0;
    while node.next != null
      invariant k < |a| && node == a[k] && (k < |a| - 1 ==> a[k].next == a[k + 1])
      decreases |a| - k
    {
      node := node.next;
      k := k + 1;
    }
    assert k == |a| - 1;
    forall i | 0 <= i < k ensures a[i] != a[k] {
      NodesDiffer(s1, a, i, k);
    }
    assert node in a && b[|b| - 1] in b;
    forall i | 0 <= i < |b| ensures b[i] != node {
      assert b[i] in b;
    }
    node.next := s2;
    head := s1;
    ghost var all := a + b;
    assert all[|all| - 1] == b[|b| - 1];
    assert forall i | 0 <= i < |b| - 1 :: b[i].next == b[i + 1];
  }
}
