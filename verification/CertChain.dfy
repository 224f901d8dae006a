/**
 Certificate chains as linked lists, root certificate first. The wire order is leaf first: marshalling reverses the list
 in place, writes it, and reverses it back; unmarshalling pushes each certificate onto the front of a new list.
 */
module CertChain {
  import opened Seq32

  const CERT_FMT_X509_DER: Byte := 0

  class Node {
    const der: seq<Byte>
    var next: Node?

    constructor (der: seq<Byte>, next: Node?)
      ensures this.der == der && this.next == next
    {
      this.der, this.next := der, next;
    }
  }

  // The nodes are the list that starts at `root`, each once.
  ghost predicate IsList(root: Node?, nodes: seq<Node>)
    reads nodes
  {
    && root == At(nodes, 0)
    && (forall i, j :: 0 <= i < j < |nodes| ==> nodes[i] != nodes[j])
    && forall i :: 0 <= i < |nodes| ==> LinksOn(nodes, i)
  }

  ghost predicate LinksOn(nodes: seq<Node>, i: int)
    requires 0 <= i < |nodes|
    reads nodes
  { nodes[i].next == At(nodes, i + 1) }

  ghost predicate LinksBack(nodes: seq<Node>, i: int)
    requires 0 <= i < |nodes|
    reads nodes
  { nodes[i].next == At(nodes, i - 1) }

  ghost function At(nodes: seq<Node>, k: int): Node? { if 0 <= k < |nodes| then nodes[k] else null }

  ghost function Reversed<T>(s: seq<T>): (r: seq<T>)
    ensures |r| == |s| && forall k :: 0 <= k < |s| ==> r[k] == s[|s| - 1 - k]
  { if s == [] then [] else Reversed(s[1..]) + [s[0]] }

  ghost function Ders(nodes: seq<Node>): (r: seq<seq<Byte>>)
    ensures |r| == |nodes| && forall k :: 0 <= k < |r| ==> r[k] == nodes[k].der
  { if nodes == [] then [] else [nodes[0].der] + Ders(nodes[1..]) }

  lemma ReversedTwice<T>(s: seq<T>)
    ensures Reversed(Reversed(s)) == s
  {
    hide Reversed;
  }

  lemma DersReversed(nodes: seq<Node>)
    ensures Ders(Reversed(nodes)) == Reversed(Ders(nodes))
  {
    hide Ders, Reversed;
  }

  /** AJ_X509ReverseChain: the same nodes, linked the other way round. */
  method ReverseChain(root: Node?, ghost nodes: seq<Node>) returns (last: Node?)
    requires IsList(root, nodes)
    modifies nodes
    ensures IsList(last, Reversed(nodes))
  {
    var node := root;
    last := null;
    ghost var k := 0;
    while node != null
      invariant 0 <= k <= |nodes| && node == At(nodes, k)
      invariant last == At(nodes, k - 1) && forall i :: 0 <= i < k ==> LinksBack(nodes, i)
      invariant forall i :: k <= i < |nodes| ==> LinksOn(nodes, i)
      decreases |nodes| - k
    {
      assert node == nodes[k] && LinksOn(nodes, k);
      var temp := node.next;
      label before:
      node.next := last;
      forall i | 0 <= i < |nodes| && i != k
        ensures i < k ==> LinksBack(nodes, i)
        ensures i > k ==> LinksOn(nodes, i)
      {
        assert nodes[i] != nodes[k];
        assert i < k ==> old@before(LinksBack(nodes, i));
        assert i > k ==> old@before(LinksOn(nodes, i));
      }
      last := node;
      node := temp;
      k := k + 1;
    }
    ReversedLinks(last, nodes);
  }

  lemma ReversedLinks(last: Node?, nodes: seq<Node>)
    requires last == At(nodes, |nodes| - 1)
    requires forall i, j :: 0 <= i < j < |nodes| ==> nodes[i] != nodes[j]
    requires forall i :: 0 <= i < |nodes| ==> LinksBack(nodes, i)
    ensures IsList(last, Reversed(nodes))
  {
    hide Reversed;
    var r := Reversed(nodes);
    forall i | 0 <= i < |r|
      ensures LinksOn(r, i)
    {
      assert r[i] == nodes[|nodes| - 1 - i] && LinksBack(nodes, |nodes| - 1 - i);
    }
  }

  // A message that certificates are marshalled into; `fails` says which marshalling calls fail.
  class Message {
    const fails: nat -> bool
    var calls: nat
    var body: seq<(Byte, seq<Byte>)>
    var closed: bool

    constructor (fails: nat -> bool)
      ensures this.fails == fails && body == [] && !closed
    {
      this.fails, calls, body, closed := fails, 0, [], false;
    }

    method Call() returns (ok: bool)
      modifies this`calls
      ensures calls == old(calls) + 1 && (ok <==> !fails(calls))
    {
      calls := calls + 1;
      return !fails(calls);
    }
  }

  // Certificates in the X.509 DER format.
  ghost function Framed(ders: seq<seq<Byte>>): (r: seq<(Byte, seq<Byte>)>)
    ensures |r| == |ders| && forall k :: 0 <= k < |r| ==> r[k] == (CERT_FMT_X509_DER, ders[k])
  { if ders == [] then [] else [(CERT_FMT_X509_DER, ders[0])] + Framed(ders[1..]) }

  /** AJ_X509ChainMarshal: leaf first, and the list is as it was on every exit. */
  method ChainMarshal(root: Node?, ghost nodes: seq<Node>, msg: Message) returns (ok: bool)
    requires IsList(root, nodes) && msg.body == [] && !msg.closed
    modifies nodes, msg
    ensures IsList(root, nodes) && forall n :: n in nodes ==> n.next == old(n.next)
    ensures msg.body <= Framed(Reversed(Ders(nodes)))
    ensures ok ==> msg.body == Framed(Reversed(Ders(nodes))) && msg.closed
    ensures (forall k :: !msg.fails(k)) ==> ok
  {
    hide IsList, Reversed, Ders, Framed, At;
    ghost var list := Reversed(nodes);
    SameMembers(nodes);
    DersReversed(nodes);
    ListStarts(root, nodes);
    var head := ReverseChain(root, nodes);
    ok := msg.Call();
    if ok {
      ok := WriteNodes(head, list, msg);
    }
    if ok {
      ok := msg.Call();
      msg.closed := ok;
    }
    head := ReverseChain(head, list);
    ReversedTwice(nodes);
    ListStarts(head, nodes);
    SameLinks(nodes);
  }

  lemma SameMembers(nodes: seq<Node>)
    ensures forall n :: n in nodes <==> n in Reversed(nodes)
  {
    hide Reversed;
    var r := Reversed(nodes);
    forall n | n in nodes
      ensures n in r
    {
      var k :| 0 <= k < |nodes| && nodes[k] == n;
      assert r[|nodes| - 1 - k] == n;
    }
  }

  lemma ListStarts(root: Node?, nodes: seq<Node>)
    ensures IsList(root, nodes) ==> root == At(nodes, 0)
  {
  }

  // A list of nodes determines all links.
  twostate lemma SameLinks(nodes: seq<Node>)
    requires old(IsList(At(nodes, 0), nodes)) && IsList(At(nodes, 0), nodes)
    ensures forall n :: n in nodes ==> n.next == old(n.next)
  {
    forall n | n in nodes
      ensures n.next == old(n.next)
    {
      var i :| 0 <= i < |nodes| && nodes[i] == n;
      assert LinksOn(nodes, i) && old(LinksOn(nodes, i));
    }
  }

  method WriteNodes(head: Node?, ghost list: seq<Node>, msg: Message) returns (ok: bool)
    requires IsList(head, list) && msg.body == [] && !msg.closed
    modifies msg
    ensures msg.body <= Framed(Ders(list)) && !msg.closed
    ensures ok ==> msg.body == Framed(Ders(list))
    ensures (forall k :: !msg.fails(k)) ==> ok
  {
    hide Framed, Ders;
    ghost var frames := Framed(Ders(list));
    var node := head;
    ghost var k := 0;
    ok := true;
    while node != null
      invariant 0 <= k <= |list| && node == At(list, k) && !msg.closed && ok
      invariant msg.body == frames[..k]
      decreases |list| - k
    {
      assert node == list[k] && LinksOn(list, k) && frames[k] == (CERT_FMT_X509_DER, node.der);
      ok := msg.Call();
      if !ok {
        return;
      }
      assert frames[..k + 1] == frames[..k] + [frames[k]];
      msg.body := msg.body + [(CERT_FMT_X509_DER, node.der)];
      node := node.next;
      k := k + 1;
    }
    assert frames[..k] == frames;
  }

  // An element that becomes a node: its format is known, there is memory for it, and its certificate decodes.
  predicate Taken(item: (Byte, seq<Byte>), room: bool, decodes: seq<Byte> -> bool) {
    item.0 == CERT_FMT_X509_DER && room && decodes(item.1)
  }

  /**
   AJ_X509ChainUnmarshal of the elements of an array, given whether the container opens, whether the elements end
   properly, which allocations succeed, which certificates decode and whether the container closes. The new list holds
   the certificates in the opposite order.
   */
  method ChainUnmarshal(opens: bool, items: seq<(Byte, seq<Byte>)>, ends: bool, allocates: nat -> bool,
                        decodes: seq<Byte> -> bool, closes: bool)
    returns (ok: bool, root: Node?, ghost nodes: seq<Node>)
    ensures ok <==>
              opens && ends && closes && forall k :: 0 <= k < |items| ==> Taken(items[k], allocates(k), decodes)
    ensures fresh(nodes) && IsList(root, nodes)
    ensures ok ==> Framed(Reversed(Ders(nodes))) == items
    ensures !ok ==> root == null
  {
    hide Reversed, Framed, Ders, IsList;
    EmptyList();
    root, nodes := null, [];
    if !opens {
      return false, null, [];
    }
    var head: Node? := null;
    var k := 0;
    while k < |items|
      invariant 0 <= k <= |items| && fresh(nodes) && IsList(head, nodes)
      invariant forall j :: 0 <= j < k ==> Taken(items[j], allocates(j), decodes)
      invariant Framed(Reversed(Ders(nodes))) == items[..k]
    {
      if items[k].0 != CERT_FMT_X509_DER || !allocates(k) {
        return false, null, [];
      }
      var node := new Node(items[k].1, head);
      Pushed(node, head, nodes);
      PushedFrames(node, nodes);
      assert items[..k + 1] == items[..k] + [items[k]];
      head, nodes := node, [node] + nodes;
      if !decodes(items[k].1) {
        return false, null, [];
      }
      k := k + 1;
    }
    if !ends || !closes {
      return false, null, [];
    }
    assert items[..k] == items;
    return true, head, nodes;
  }

  lemma EmptyList()
    ensures IsList(null, []) && Framed(Reversed(Ders([]))) == []
  {
  }

  lemma PushedFrames(node: Node, nodes: seq<Node>)
    ensures Framed(Reversed(Ders([node] + nodes))) == Framed(Reversed(Ders(nodes))) + [(CERT_FMT_X509_DER, node.der)]
  {
    hide Reversed, Framed, Ders;
    var x, y := Ders([node] + nodes), Ders(nodes);
    assert x == [node.der] + y;
    assert Reversed(x) == Reversed(y) + [node.der];
  }

  lemma Pushed(node: Node, head: Node?, nodes: seq<Node>)
    requires IsList(head, nodes) && node !in nodes && node.next == head
    ensures IsList(node, [node] + nodes)
  {
    var list := [node] + nodes;
    forall i | 0 <= i < |list|
      ensures LinksOn(list, i)
    {
      if i > 0 {
        assert list[i] == nodes[i - 1] && LinksOn(nodes, i - 1);
      }
    }
  }

  /** What was marshalled unmarshals to the same certificates in the same order, root first. */
  method RoundTrip(root: Node?, ghost nodes: seq<Node>, fails: nat -> bool, allocates: nat -> bool,
                   decodes: seq<Byte> -> bool)
    returns (sent: bool, ok: bool, copy: Node?, ghost copies: seq<Node>)
    requires IsList(root, nodes)
    modifies nodes
    ensures IsList(root, nodes) && IsList(copy, copies)
    ensures sent && ok ==> Ders(copies) == Ders(nodes)
    ensures (forall k :: !fails(k)) ==> sent
    ensures sent && (forall k :: allocates(k)) && (forall n :: n in nodes ==> decodes(n.der)) ==> ok
  {
    var msg := new Message(fails);
    sent := ChainMarshal(root, nodes, msg);
    ok, copy, copies := ChainUnmarshal(true, msg.body, true, allocates, decodes, true);
    if sent {
      SameDers(Ders(nodes), Ders(copies));
    }
  }

  lemma SameDers(a: seq<seq<Byte>>, b: seq<seq<Byte>>)
    ensures Framed(Reversed(a)) == Framed(Reversed(b)) ==> a == b
  {
    var x, y := Framed(Reversed(a)), Framed(Reversed(b));
    if x == y {
      forall k | 0 <= k < |a|
        ensures a[k] == b[k]
      {
        assert x[|a| - 1 - k].1 == y[|a| - 1 - k].1;
      }
    }
  }
}
