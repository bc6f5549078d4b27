/**
 * The singly-linked list (`list_t`): nodes holding one element each and a
 * `next` pointer; a list is a pointer to its first node, null when empty.
 *
 * A list is described by the ghost sequence of its nodes, in link order.
 */
module Lists {
  import opened Wrappers

  class Node<T> {
    var el: T
    var next: Node?<T>

    /** list_new: a one-node list. */
    constructor New(el: T)
      ensures this.el == el && next == null
    {
      this.el := el;
      next := null;
    }
  }

  /** `head` starts a null-terminated chain through exactly `nodes`, in order. */
  ghost predicate IsList<T>(head: Node?<T>, nodes: seq<Node<T>>)
    reads nodes
  {
    (if nodes == [] then head == null else head == nodes[0])
    && (forall i | 0 <= i < |nodes| - 1 :: nodes[i].next == nodes[i + 1])
    && (nodes != [] ==> nodes[|nodes| - 1].next == null)
    && (forall i, j | 0 <= i < j < |nodes| :: nodes[i] != nodes[j])
  }

  /** The elements of the nodes, in order. */
  ghost function Elements<T>(nodes: seq<Node<T>>): (r: seq<T>)
    reads nodes
    ensures |r| == |nodes|
    ensures forall i | 0 <= i < |nodes| :: r[i] == nodes[i].el
  {
    if nodes == [] then [] else [nodes[0].el] + Elements(nodes[1..])
  }

  /** The argument values before the first null one. */
  function UntilNull<T>(args: seq<Option<T>>): (r: seq<T>)
    ensures |r| <= |args|
    ensures forall i | 0 <= i < |r| :: args[i] == Some(r[i])
    ensures |r| < |args| ==> args[|r|].None?
  {
    if args == [] || args[0].None? then [] else [args[0].value] + UntilNull(args[1..])
  }

  /** The index of the first element satisfying p, if any. */
  function FirstMatch<T>(els: seq<T>, p: T -> bool): (r: Option<nat>)
    ensures r.None? <==> forall i | 0 <= i < |els| :: !p(els[i])
    ensures r.Some? ==>
      r.value < |els| && p(els[r.value]) && forall i | 0 <= i < r.value :: !p(els[i])
  {
    if els == [] then None
    else if p(els[0]) then Some(0)
    else match FirstMatch(els[1..], p)
      case None => None
      case Some(k) => Some(k + 1)
  }

  /** The state left after applying f to every element in order, starting from u. */
  function Fold<T, U>(f: (T, U) -> U, u: U, els: seq<T>): U
    decreases |els|
  {
    if els == [] then u else Fold(f, f(els[0], u), els[1..])
  }

  /** Traversing a concatenation is traversing one part and then the other. */
  lemma {:induction false} FoldAppend<T, U>(f: (T, U) -> U, u: U, a: seq<T>, b: seq<T>)
    ensures Fold(f, u, a + b) == Fold(f, Fold(f, u, a), b)
    decreases |a|
  {
    if a != [] {
      assert (a + b)[1..] == a[1..] + b;
      FoldAppend(f, f(a[0], u), a[1..], b);
    } else {
      assert a + b == b;
    }
  }

  /** list_length: the number of nodes. */
  method Length<T>(head: Node?<T>, ghost nodes: seq<Node<T>>) returns (n: int)
    requires IsList(head, nodes)
    ensures n == |nodes|
    ensures n == 0 <==> head == null
  {
    n := 0;
    var p := head;
    while p != null
      invariant 0 <= n <= |nodes|
      invariant p == if n < |nodes| then nodes[n] else null
      decreases |nodes| - n
    {
      n := n + 1;
      p := p.next;
    }
  }

  /** list_push: appends a new node at the tail; the head is unchanged unless
      the list was empty. */
  method Push<T>(head: Node?<T>, el: T, ghost nodes: seq<Node<T>>)
    returns (r: Node<T>, ghost nodes': seq<Node<T>>, ghost added: Node<T>)
    requires IsList(head, nodes)
    modifies nodes
    ensures IsList(r, nodes') && fresh(added) && nodes' == nodes + [added]
    ensures r == if head == null then added else head
    ensures added.el == el && forall j | 0 <= j < |nodes| :: nodes[j].el == old(nodes[j].el)
    ensures Elements(nodes') == old(Elements(nodes)) + [el]
  {
    var nw := new Node.New(el);
    nodes', added := nodes + [nw], nw;
    ghost var els := Elements(nodes);
    if head == null {
      ElementsAre(nodes', els + [el]);
      return nw, nodes', added;
    }
    var last := Last(head, nodes);
    Link(last, nw, nodes);
    r := head;
    ElementsAre(nodes', els + [el]);
  }

  /** The walk of list_push to the tail node. */
  method Last<T>(head: Node<T>, ghost nodes: seq<Node<T>>) returns (p: Node<T>)
    requires IsList(head, nodes)
    ensures p == nodes[|nodes| - 1]
  {
    p := head;
    ghost var k := 0;
    while p.next != null
      invariant 0 <= k < |nodes| && p == nodes[k]
      invariant p.next == if k + 1 < |nodes| then nodes[k + 1] else null
      decreases |nodes| - k
    {
      p := p.next;
      k := k + 1;
    }
  }

  /** The write of list_push: the tail node now points to a fresh node. */
  method Link<T>(last: Node<T>, nw: Node<T>, ghost nodes: seq<Node<T>>)
    requires nodes != [] && IsList(nodes[0], nodes) && last == nodes[|nodes| - 1]
    requires nw !in nodes && nw.next == null
    modifies last
    ensures IsList(nodes[0], nodes + [nw])
    ensures forall j | 0 <= j < |nodes| :: nodes[j].el == old(nodes[j].el)
  {
    last.next := nw;
    assert forall i | 0 <= i < |nodes| - 1 :: nodes[i] != last && nodes[i].next == old(nodes[i].next);
    ghost var s := nodes + [nw];
    forall i | 0 <= i < |s| - 1 ensures s[i].next == s[i + 1] {
      if i < |nodes| - 1 {
        assert s[i] == nodes[i] && s[i + 1] == nodes[i + 1];
      }
    }
  }

  /** list_from: a list of the arguments in order, up to the first null. */
  method From<T>(args: seq<Option<T>>) returns (r: Node?<T>, ghost nodes: seq<Node<T>>)
    ensures IsList(r, nodes) && Elements(nodes) == UntilNull(args)
    ensures forall m | m in nodes :: fresh(m)
  {
    ghost var want := UntilNull(args);
    r, nodes := null, [];
    var i := 0;
    while i < |args| && args[i].Some?
      invariant 0 <= i <= |want|
      invariant IsList(r, nodes) && |nodes| == i
      invariant forall j | 0 <= j < i :: nodes[j].el == want[j]
      invariant forall j | 0 <= j < |nodes| :: fresh(nodes[j])
    {
      var v := args[i].value;
      assert i < |want| && want[i] == v;
      ghost var added, nodes2;
      r, nodes2, added := Push(r, v, nodes);
      assert IsList(r, nodes2) && nodes2 == nodes + [added];
      forall j | 0 <= j <= i ensures nodes2[j].el == want[j] && fresh(nodes2[j]) {
        if j < i {
          assert nodes2[j] == nodes[j];
        }
      }
      nodes := nodes2;
      i := i + 1;
    }
    ElementsAre(nodes, want);
  }

  /** list_foreach: applies f to every element in list order; `u` plays the
      part of the user data f updates. */
  method ForEach<T, U>(head: Node?<T>, f: (T, U) -> U, u: U, ghost nodes: seq<Node<T>>)
    returns (r: U)
    requires IsList(head, nodes)
    ensures r == Fold(f, u, Elements(nodes))
  {
    var p := head;
    r := u;
    ghost var i := 0;
    while p != null
      invariant 0 <= i <= |nodes|
      invariant p == if i < |nodes| then nodes[i] else null
      invariant Fold(f, u, Elements(nodes)) == Fold(f, r, Elements(nodes)[i..])
      decreases |nodes| - i
    {
      assert Elements(nodes)[i..][1..] == Elements(nodes)[i + 1..];
      r := f(p.el, r);
      p := p.next;
      i := i + 1;
    }
  }

  /** The traversal function with its extra argument fixed. */
  function Matches<T, U>(f: (T, U) -> bool, u: U): T -> bool {
    x => f(x, u)
  }

  /** The first match is at k when k matches and nothing before it does. */
  lemma FirstMatchIs<T>(els: seq<T>, p: T -> bool, k: nat)
    requires k < |els| && p(els[k])
    requires forall j | 0 <= j < k :: !p(els[j])
    ensures FirstMatch(els, p) == Some(k)
  {
  }

  /** list_find_first: the first node whose element satisfies f, or null. */
  method FindFirst<T, U>(head: Node?<T>, f: (T, U) -> bool, u: U, ghost nodes: seq<Node<T>>)
    returns (r: Node?<T>)
    requires IsList(head, nodes)
    ensures match FirstMatch(Elements(nodes), Matches(f, u))
      case None => r == null
      case Some(k) => r == nodes[k]
  {
    ghost var els, p := Elements(nodes), Matches(f, u);
    var n := head;
    ghost var i := 0;
    while n != null
      invariant 0 <= i <= |nodes|
      invariant n == if i < |nodes| then nodes[i] else null
      invariant forall j | 0 <= j < i :: !p(els[j])
      decreases |nodes| - i
    {
      if f(n.el, u) {
        assert p(els[i]);
        FirstMatchIs(els, p, i);
        return n;
      }
      assert !p(els[i]);
      n := n.next;
      i := i + 1;
    }
    return null;
  }

  /** list_remove: unlinks `link` and clears its `next`, returning the new
      head; a node not in the list leaves everything unchanged. `k` is the
      position the removed node had. */
  method Remove<T>(head: Node?<T>, link: Node?<T>, ghost nodes: seq<Node<T>>)
    returns (r: Node?<T>, ghost nodes': seq<Node<T>>, ghost k: nat)
    requires IsList(head, nodes)
    modifies nodes
    ensures IsList(r, nodes')
    ensures forall j | 0 <= j < |nodes| :: nodes[j].el == old(nodes[j].el)
    ensures link !in nodes ==>
      r == head && nodes' == nodes && forall j | 0 <= j < |nodes| :: nodes[j].next == old(nodes[j].next)
    ensures link in nodes ==>
      && k < |nodes| && nodes[k] == link && link.next == null
      && nodes' == nodes[..k] + nodes[k + 1..]
      && r == (if k == 0 then old(link.next) else head)
      && Elements(nodes') == old(Elements(nodes))[..k] + old(Elements(nodes))[k + 1..]
  {
    var p := head;
    var prev: Node?<T> := null;
    k := 0;
    while p != null
      invariant 0 <= k <= |nodes|
      invariant p == if k < |nodes| then nodes[k] else null
      invariant prev == if k == 0 then null else nodes[k - 1]
      invariant link !in nodes[..k]
      decreases |nodes| - k
    {
      if p == link {
        r, nodes' := Unlink(head, prev, link, nodes, k);
        return;
      }
      prev := p;
      p := p.next;
      k := k + 1;
    }
    assert nodes[..k] == nodes;
    r, nodes' := head, nodes;
  }

  /** The found branch of list_remove: `link` sits at position k, after `prev`. */
  method Unlink<T>(head: Node?<T>, prev: Node?<T>, link: Node<T>, ghost nodes: seq<Node<T>>, ghost k: nat)
    returns (r: Node?<T>, ghost nodes': seq<Node<T>>)
    requires IsList(head, nodes) && k < |nodes| && nodes[k] == link
    requires prev == if k == 0 then null else nodes[k - 1]
    modifies nodes
    ensures IsList(r, nodes') && link.next == null
    ensures forall j | 0 <= j < |nodes| :: nodes[j].el == old(nodes[j].el)
    ensures nodes' == nodes[..k] + nodes[k + 1..]
    ensures r == if k == 0 then old(link.next) else head
    ensures Elements(nodes') == old(Elements(nodes))[..k] + old(Elements(nodes))[k + 1..]
  {
    ghost var els := Elements(nodes);
    r := Detach(head, prev, link, nodes, k);
    nodes' := nodes[..k] + nodes[k + 1..];
    ElementsRemoved(nodes, k, els);
  }

  /** The pointer writes of the found branch: the predecessor (or the head)
      skips over `link`, whose own `next` is cleared. */
  method Detach<T>(head: Node?<T>, prev: Node?<T>, link: Node<T>, ghost nodes: seq<Node<T>>, ghost k: nat)
    returns (r: Node?<T>)
    requires IsList(head, nodes) && k < |nodes| && nodes[k] == link
    requires prev == if k == 0 then null else nodes[k - 1]
    modifies nodes
    ensures IsList(r, nodes[..k] + nodes[k + 1..]) && link.next == null
    ensures forall j | 0 <= j < |nodes| :: nodes[j].el == old(nodes[j].el)
    ensures r == if k == 0 then old(link.next) else head
  {
    var after := link.next;
    assert after == if k + 1 < |nodes| then nodes[k + 1] else null;
    if prev != null {
      prev.next := after;
      r := head;
    } else {
      r := after;
    }
    link.next := null;
    assert forall i | 0 <= i < |nodes| && i != k && i + 1 != k :: nodes[i].next == old(nodes[i].next);
    RemovedIsList(nodes, k, r);
  }

  /** The elements of the list without its k-th node. */
  lemma ElementsRemoved<T>(nodes: seq<Node<T>>, k: nat, els: seq<T>)
    requires k < |nodes| == |els| && forall i | 0 <= i < |nodes| :: nodes[i].el == els[i]
    ensures Elements(nodes[..k] + nodes[k + 1..]) == els[..k] + els[k + 1..]
  {
    var s, want := nodes[..k] + nodes[k + 1..], els[..k] + els[k + 1..];
    forall i | 0 <= i < |s| ensures s[i].el == want[i] {
      if i >= k {
        assert s[i] == nodes[i + 1];
      }
    }
    ElementsAre(s, want);
  }

  lemma ElementsAre<T>(nodes: seq<Node<T>>, els: seq<T>)
    requires |nodes| == |els| && forall i | 0 <= i < |nodes| :: nodes[i].el == els[i]
    ensures Elements(nodes) == els
  {
  }

  /** After the unlink, the other nodes still form a list. */
  lemma RemovedIsList<T>(nodes: seq<Node<T>>, k: nat, r: Node?<T>)
    requires k < |nodes|
    requires forall i, j | 0 <= i < j < |nodes| :: nodes[i] != nodes[j]
    requires forall i | 0 <= i < |nodes| - 1 && i != k - 1 && i != k :: nodes[i].next == nodes[i + 1]
    requires k > 0 ==> nodes[k - 1].next == (if k + 1 < |nodes| then nodes[k + 1] else null)
    requires k + 1 < |nodes| ==> nodes[|nodes| - 1].next == null
    requires k == |nodes| - 1 && k > 0 ==> nodes[k - 1].next == null
    requires r == if k == 0 then (if |nodes| > 1 then nodes[1] else null) else nodes[0]
    ensures IsList(r, nodes[..k] + nodes[k + 1..])
  {
    var s := nodes[..k] + nodes[k + 1..];
    forall i | 0 <= i < |s| - 1 ensures s[i].next == s[i + 1] {
      if i < k - 1 {
      } else if i == k - 1 {
      } else {
        assert s[i] == nodes[i + 1] && s[i + 1] == nodes[i + 2];
      }
    }
    forall i, j | 0 <= i < j < |s| ensures s[i] != s[j] {
      var i' := if i < k then i else i + 1;
      var j' := if j < k then j else j + 1;
      assert s[i] == nodes[i'] && s[j] == nodes[j'];
    }
  }
}
