/**
 The pointer-linked heap of lib/heap_sort.c, used by kernel/timer.c.

 Nodes point to their parent and children.  The ghost sequence `nodes` lists them in level order;
 the pointers say exactly that sequence (`Wired`), and each method changes it as the functions of
 `HeapOrder` say.
 */
module TimerHeap {
  import opened Common
  import opened HeapOrder

  datatype TimerState = Idle | Scheduled

  class Timer {
    var parent: Timer?
    var left: Timer?
    var right: Timer?
    var timeToExpire: nat
    var state: TimerState

    constructor (expire: nat)
      ensures parent == null && left == null && right == null && timeToExpire == expire && state == Idle
    {
      parent, left, right := null, null, null;
      timeToExpire, state := expire, Idle;
    }
  }

  function NodeAt(s: seq<Timer>, i: nat): Timer? {
    if i < |s| then s[i] else null
  }

  /** The child pointers of node `i`, and its children's parent pointers. */
  ghost predicate WiredAt(s: seq<Timer>, i: nat)
    requires i < |s|
    reads s
  {
    && s[i].left == NodeAt(s, 2 * i + 1)
    && s[i].right == NodeAt(s, 2 * i + 2)
    && (2 * i + 1 < |s| ==> s[2 * i + 1].parent == s[i])
    && (2 * i + 2 < |s| ==> s[2 * i + 2].parent == s[i])
  }

  /** The pointers form the complete binary tree with level order `s`. */
  ghost predicate Wired(s: seq<Timer>)
    reads s
  {
    && Distinct(s)
    && (s != [] ==> s[0].parent == null)
    && (forall i {:trigger WiredAt(s, i)} :: 0 <= i < |s| ==> WiredAt(s, i))
  }

  /** The pointers of one node. */
  datatype Links = Links(parent: Timer?, left: Timer?, right: Timer?)

  ghost function LinksOf(s: seq<Timer>, i: nat): Links
    requires i < |s|
    reads s
  {
    Links(s[i].parent, s[i].left, s[i].right)
  }

  /** The pointers that the node at place `i` of a heap with level order `s` has. */
  function LinksAt(s: seq<Timer>, i: nat): Links
    requires i < |s|
  {
    Links(if i == 0 then null else s[Parent(i)], NodeAt(s, 2 * i + 1), NodeAt(s, 2 * i + 2))
  }

  lemma WiredSaysLinks(s: seq<Timer>, i: nat)
    requires Wired(s) && i < |s|
    ensures LinksOf(s, i) == LinksAt(s, i)
  {
    assert WiredAt(s, i);
    assert i > 0 ==> WiredAt(s, Parent(i));
  }

  lemma LinksSayWired(s: seq<Timer>)
    requires Distinct(s) && forall i {:trigger LinksOf(s, i)} :: 0 <= i < |s| ==> LinksOf(s, i) == LinksAt(s, i)
    ensures Wired(s)
  {
    forall i | 0 <= i < |s|
      ensures WiredAt(s, i)
    {
      assert LinksOf(s, i) == LinksAt(s, i);
      assert 2 * i + 1 < |s| ==> LinksOf(s, 2 * i + 1) == LinksAt(s, 2 * i + 1);
      assert 2 * i + 2 < |s| ==> LinksOf(s, 2 * i + 2) == LinksAt(s, 2 * i + 2);
    }
    assert s != [] ==> LinksOf(s, 0) == LinksAt(s, 0);
  }

  /**
   Node `n` has new children `l` and `r`, and they have it as their parent: what that does to the pointers of node
   `k`.
   */
  function Adopt(s: seq<Timer>, n: nat, l: nat, r: nat, k: nat, links: Links): Links
    requires n < |s|
  {
    if k == n then links.(left := NodeAt(s, l), right := NodeAt(s, r))
    else if k == l || k == r then links.(parent := s[n])
    else links
  }

  /** Pointers of node `k` during swap_nodes: once the node above points to the child ... */
  function Hooked(s: seq<Timer>, i: nat, c: nat, k: nat): Links
    requires i < |s| && c < |s| && k < |s|
  {
    var links := LinksAt(s, k);
    if k == c then links.(parent := LinksAt(s, i).parent)
    else if i == 2 * k + 1 then links.(left := s[c])
    else if i == 2 * k + 2 then links.(right := s[c])
    else links
  }

  /** ... once the child has taken over the parent's children ... */
  function Raised(s: seq<Timer>, i: nat, c: nat, k: nat): Links
    requires i < |s| && 0 < c < |s| && k < |s|
  {
    if c == 2 * i + 1 then Adopt(s, c, i, c + 1, k, Hooked(s, i, c, k))
    else Adopt(s, c, c - 1, i, k, Hooked(s, i, c, k))
  }

  /** ... and once the parent has taken over the child's. */
  function Swapped(s: seq<Timer>, i: nat, c: nat, k: nat): Links
    requires i < |s| && 0 < c < |s| && k < |s|
  {
    Adopt(s, i, 2 * c + 1, 2 * c + 2, k, Raised(s, i, c, k))
  }

  lemma SwappedIsSwap(s: seq<Timer>, i: nat, c: nat, j: nat)
    requires i < |s| && c < |s| && j < |s| && (c == 2 * i + 1 || c == 2 * i + 2)
    ensures LinksAt(Swap(s, i, c), j) == Swapped(s, i, c, if j == i then c else if j == c then i else j)
  {
  }

  lemma SwappedIsWired(s: seq<Timer>, i: nat, c: nat)
    requires Distinct(s) && i < |s| && c < |s| && (c == 2 * i + 1 || c == 2 * i + 2)
    requires forall k {:trigger LinksOf(s, k)} :: 0 <= k < |s| ==> LinksOf(s, k) == Swapped(s, i, c, k)
    ensures Wired(Swap(s, i, c))
  {
    var t := Swap(s, i, c);
    forall j | 0 <= j < |t|
      ensures LinksOf(t, j) == LinksAt(t, j)
    {
      SwappedIsSwap(s, i, c, j);
      assert LinksOf(s, if j == i then c else if j == c then i else j) == LinksOf(t, j);
    }
    LinksSayWired(t);
  }

  ghost function Entries(s: seq<Timer>): (r: seq<Entry<Timer>>)
    reads s
    ensures |r| == |s| && forall i :: 0 <= i < |s| ==> r[i] == Entry(s[i], s[i].timeToExpire)
  {
    seq(|s|, i requires 0 <= i < |s| reads s => Entry(s[i], s[i].timeToExpire))
  }

  ghost predicate SameNodes(s: seq<Timer>, t: seq<Timer>) {
    (forall n :: n in s ==> n in t) && (forall n :: n in t ==> n in s)
  }

  lemma SwapSameNodes(s: seq<Timer>, i: nat, j: nat)
    requires i < |s| && j < |s|
    ensures SameNodes(s, Swap(s, i, j))
  {
    var t := Swap(s, i, j);
    forall k | 0 <= k < |s|
      ensures s[k] in t && t[k] in s
    {
      assert s[k] == t[if k == i then j else if k == j then i else k];
    }
  }

  /** Pointers of node `k` once the parent of node `i` points to `x` instead. */
  function Succeeded(s: seq<Timer>, i: nat, x: Timer, k: nat): Links
    requires k < |s|
  {
    var links := LinksAt(s, k);
    Links(links.parent, if i == 2 * k + 1 then x else links.left, if i == 2 * k + 2 then x else links.right)
  }

  /** The pointers of the node at place `k` after node `x` took place `i`. */
  lemma PlaceTaken(s: seq<Timer>, i: nat, x: Timer, k: nat)
    requires i < |s| && k < |s|
    ensures var links := LinksAt(s[i := x], k);
            && (k == i ==> links == LinksAt(s, i))
            && (k > 0 && Parent(k) == i ==> links == LinksAt(s, k).(parent := x))
            && (i == 2 * k + 1 ==> links == LinksAt(s, k).(left := x))
            && (i == 2 * k + 2 ==> links == LinksAt(s, k).(right := x))
            && (k != i && !(k > 0 && Parent(k) == i) && i != 2 * k + 1 && i != 2 * k + 2 ==> links == LinksAt(s, k))
  {
  }

  class Heap {
    var root: Timer?
    ghost var nodes: seq<Timer>

    ghost predicate Valid()
      reads this, nodes
    {
      && Wired(nodes)
      && root == NodeAt(nodes, 0)
    }

    /** The heap as a sequence of entries in level order. */
    ghost function Contents(): (s: seq<Entry<Timer>>)
      reads this, nodes
      ensures |s| == |nodes|
    {
      Entries(nodes)
    }

    constructor ()
      ensures Valid() && nodes == []
    {
      root, nodes := null, [];
    }

    /** Breadth-first search: the last node in level order. */
    method SearchLastNode() returns (target: Timer?)
      requires Valid()
      ensures target == if nodes == [] then null else nodes[|nodes| - 1]
    {
      if root == null {
        return null;
      }
      var queue := [root];
      ghost var k := 0;
      target := null;
      while queue != []
        invariant k <= |nodes| && queue == nodes[k..if 2 * k + 1 < |nodes| then 2 * k + 1 else |nodes|]
        invariant k > 0 ==> target == nodes[k - 1]
        decreases |nodes| - k
      {
        assert WiredAt(nodes, k);
        var node := queue[0];
        queue := queue[1..];
        target := node;
        if node.left != null {
          queue := queue + [node.left];
          assert queue == nodes[k + 1..2 * k + 2];
        }
        if node.right != null {
          queue := queue + [node.right];
          assert queue == nodes[k + 1..2 * k + 3];
        }
        k := k + 1;
      }
    }

    /** Breadth-first search: the first node with a free child slot. */
    method SearchLastParent() returns (target: Timer?)
      requires Valid()
      ensures nodes == [] ==> target == null
      ensures nodes != [] ==> target == nodes[(|nodes| - 1) / 2] && target.right == null
    {
      if root == null {
        return null;
      }
      var queue := [root];
      ghost var k := 0;
      while queue != []
        invariant k <= (|nodes| - 1) / 2
        invariant queue == nodes[k..if 2 * k + 1 < |nodes| then 2 * k + 1 else |nodes|]
        decreases |nodes| - k
      {
        assert WiredAt(nodes, k);
        var node := queue[0];
        queue := queue[1..];
        if node.left == null || node.right == null {
          return node;
        }
        queue := queue + [node.left];
        queue := queue + [node.right];
        k := k + 1;
      }
      assert false;
    }

    /** swap_nodes: exchange a node with one of its children by rewiring their neighbours. */
    method SwapNodes(parent: Timer, child: Timer, ghost i: nat, ghost c: nat)
      requires Valid() && i < |nodes| && c < |nodes| && nodes[i] == parent && nodes[c] == child
      requires c == 2 * i + 1 || c == 2 * i + 2
      modifies this, nodes`parent, nodes`left, nodes`right
      ensures Valid() && nodes == Swap(old(nodes), i, c) && SameNodes(nodes, old(nodes))
      ensures Contents() == Swap(old(Contents()), i, c)
    {
      SwapSameNodes(nodes, i, c);
      forall k | 0 <= k < |nodes|
        ensures LinksOf(nodes, k) == LinksAt(nodes, k)
      {
        WiredSaysLinks(nodes, k);
      }
      Rewire(parent, child, nodes, i, c);
      if root == parent {
        root := child;
      }
      ghost var s := nodes;
      SwappedIsWired(nodes, i, c);
      nodes := Swap(nodes, i, c);
      assert Entries(s) == old(Entries(s));
      assert Entries(nodes) == Swap(Entries(s), i, c);
    }

    /** The pointer updates of swap_nodes. */
    static method Rewire(parent: Timer, child: Timer, ghost s: seq<Timer>, ghost i: nat, ghost c: nat)
      requires Distinct(s) && i < |s| && c < |s| && s[i] == parent && s[c] == child
      requires (c == 2 * i + 1 || c == 2 * i + 2)
      requires forall k {:trigger LinksOf(s, k)} :: 0 <= k < |s| ==> LinksOf(s, k) == LinksAt(s, k)
      modifies s`parent, s`left, s`right
      ensures forall k {:trigger LinksOf(s, k)} :: 0 <= k < |s| ==> LinksOf(s, k) == Swapped(s, i, c, k)
    {
      assert LinksOf(s, i) == LinksAt(s, i) && LinksOf(s, c) == LinksAt(s, c);
      var leftOfChild, rightOfChild := child.left, child.right;
      var isLeftChild := child == parent.left;
      Hook(parent, child, s, i, c);
      assert LinksOf(s, i) == Hooked(s, i, c, i);
      if isLeftChild {
        SetChildren(child, parent, parent.right, s, c, i, c + 1);
      } else {
        SetChildren(child, parent.left, parent, s, c, c - 1, i);
      }
      assert forall k {:trigger LinksOf(s, k)} :: 0 <= k < |s| ==> LinksOf(s, k) == Raised(s, i, c, k);
      SetChildren(parent, leftOfChild, rightOfChild, s, i, 2 * c + 1, 2 * c + 2);
    }

    static method Hook(parent: Timer, child: Timer, ghost s: seq<Timer>, ghost i: nat, ghost c: nat)
      requires Distinct(s) && i < |s| && c < |s| && s[i] == parent && s[c] == child
      requires (c == 2 * i + 1 || c == 2 * i + 2)
      requires forall k {:trigger LinksOf(s, k)} :: 0 <= k < |s| ==> LinksOf(s, k) == LinksAt(s, k)
      modifies s`parent, s`left, s`right
      ensures forall k {:trigger LinksOf(s, k)} :: 0 <= k < |s| ==> LinksOf(s, k) == Hooked(s, i, c, k)
    {
      assert LinksOf(s, i) == LinksAt(s, i);
      assert i > 0 ==> LinksOf(s, Parent(i)) == LinksAt(s, Parent(i));
      child.parent := parent.parent;
      if parent.parent != null {
        if parent.parent.left == parent {
          parent.parent.left := child;
        } else {
          parent.parent.right := child;
        }
      }
      forall k | 0 <= k < |s|
        ensures LinksOf(s, k) == Hooked(s, i, c, k)
      {
        assert old(LinksOf(s, k)) == LinksAt(s, k);
      }
    }

    static method SetChildren(n: Timer, l: Timer?, r: Timer?, ghost s: seq<Timer>, ghost k: nat, ghost kl: nat,
                              ghost kr: nat)
      requires Distinct(s) && k < |s| && s[k] == n && l == NodeAt(s, kl) && r == NodeAt(s, kr)
      requires kl != k && kr != k && kl != kr
      modifies n`left, n`right, (if l == null then {} else {l})`parent, (if r == null then {} else {r})`parent
      ensures forall j {:trigger LinksOf(s, j)} :: 0 <= j < |s| ==>
                LinksOf(s, j) == Adopt(s, k, kl, kr, j, old(LinksOf(s, j)))
    {
      n.left := l;
      n.right := r;
      if l != null {
        l.parent := n;
      }
      if r != null {
        r.parent := n;
      }
    }

    /** The child that must change places with `node`, or null when `node` is not above a smaller key. */
    method PickSmaller(node: Timer, ghost c: nat) returns (m: Timer?)
      requires Valid() && c < |nodes| && nodes[c] == node
      ensures m == if Smaller(Contents(), c) == c then null else nodes[Smaller(Contents(), c)]
    {
      assert WiredAt(nodes, c);
      var leftIsSmaller := node.left != null && node.left.timeToExpire < node.timeToExpire;
      var rightIsSmaller := false;
      if node.right != null {
        if leftIsSmaller {
          rightIsSmaller := node.right.timeToExpire < node.left.timeToExpire;
        } else {
          rightIsSmaller := node.right.timeToExpire < node.timeToExpire;
        }
      }
      m := if rightIsSmaller then node.right else if leftIsSmaller then node.left else null;
    }

    /** adjust_heap_node */
    method AdjustHeapNode(node: Timer, ghost c: nat)
      requires Valid() && c < |nodes| && nodes[c] == node
      modifies this, nodes`parent, nodes`left, nodes`right
      ensures Valid() && SameNodes(nodes, old(nodes)) && Contents() == SiftDown(old(Contents()), c)
    {
      ghost var i: nat := c;
      while true
        invariant Valid() && SameNodes(nodes, old(nodes)) && i < |nodes| && nodes[i] == node
        invariant SiftDown(Contents(), i) == SiftDown(old(Contents()), c)
        decreases |nodes| - i
      {
        var m := PickSmaller(node, i);
        if m == null {
          break;
        }
        ghost var k := Smaller(Contents(), i);
        assert forall j :: 0 <= j < |nodes| ==> nodes[j] in old(nodes);
        SwapNodes(node, m, i, k);
        i := k;
      }
    }

    /** Put `node` into the first open slot. */
    method Append(node: Timer, parent: Timer)
      requires Valid() && node !in nodes && node.parent == null && node.left == null && node.right == null
      requires nodes != [] && parent == nodes[Parent(|nodes|)]
      modifies this`nodes, nodes`left, nodes`right, node`parent
      ensures Valid() && nodes == old(nodes) + [node]
      ensures Contents() == old(Contents()) + [Entry(node, node.timeToExpire)]
    {
      ghost var s := nodes;
      assert WiredAt(s, Parent(|s|));
      forall k | 0 <= k < |s|
        ensures LinksOf(s, k) == LinksAt(s, k)
      {
        WiredSaysLinks(s, k);
      }
      if parent.left == null {
        parent.left := node;
      } else {
        parent.right := node;
      }
      node.parent := parent;
      nodes := nodes + [node];
      forall k | 0 <= k < |nodes|
        ensures LinksOf(nodes, k) == LinksAt(nodes, k)
      {
        assert k < |s| ==> old(LinksOf(s, k)) == LinksAt(s, k);
      }
      LinksSayWired(nodes);
    }

    /** attach_heap_node */
    method AttachHeapNode(node: Timer)
      requires Valid() && node !in nodes && node.parent == null && node.left == null && node.right == null
      modifies this, nodes`parent, nodes`left, nodes`right, node`parent, node`left, node`right
      ensures Valid() && SameNodes(nodes, old(nodes) + [node])
      ensures Contents() == Attach(old(Contents()), Entry(node, node.timeToExpire))
    {
      var lastParent := SearchLastParent();
      if lastParent == null {
        root := node;
        nodes := [node];
        assert WiredAt(nodes, 0);
        return;
      }
      Append(node, lastParent);
      RaiseFrom(lastParent, Parent(|old(nodes)|));
    }

    /** The loop of attach_heap_node. */
    method RaiseFrom(node: Timer, ghost i: nat)
      requires Valid() && i < |nodes| && nodes[i] == node
      modifies this, nodes`parent, nodes`left, nodes`right
      ensures Valid() && SameNodes(nodes, old(nodes)) && Contents() == SiftUp(old(Contents()), i)
    {
      hide Wired, Contents, Entries;
      var current: Timer? := node;
      ghost var c: nat := i;
      ghost var target := SiftUp(Contents(), i);
      while current != null
        invariant Valid() && SameNodes(nodes, old(nodes))
        invariant current == null ==> Contents() == target
        invariant current != null ==> c < |nodes| && nodes[c] == current && SiftUp(Contents(), c) == target
        decreases if current == null then 0 else c + 1
      {
        var m := PickSmaller(current, c);
        if m == null {
          break;
        }
        assert forall j :: 0 <= j < |nodes| ==> nodes[j] in old(nodes);
        current := RaiseChild(current, m, c);
        if c > 0 {
          c := Parent(c);
        }
      }
    }

    method RaiseChild(node: Timer, m: Timer, ghost c: nat) returns (above: Timer?)
      requires Valid() && c < |nodes| && nodes[c] == node && Smaller(Contents(), c) != c
      requires nodes[Smaller(Contents(), c)] == m
      modifies this, nodes`parent, nodes`left, nodes`right
      ensures Valid() && SameNodes(nodes, old(nodes))
      ensures Contents() == Swap(old(Contents()), c, Smaller(old(Contents()), c))
      ensures above == if c == 0 then null else nodes[Parent(c)]
    {
      ghost var k := Smaller(Contents(), c);
      SwapNodes(node, m, c, k);
      WiredSaysLinks(nodes, c);
      WiredSaysLinks(nodes, k);
      above := node.parent.parent;
    }

    /** The last node in level order leaves the tree. */
    method RemoveLast() returns (last: Timer)
      requires Valid() && nodes != []
      modifies this, nodes`parent, nodes`left, nodes`right
      ensures Valid() && nodes == old(nodes)[..|old(nodes)| - 1] && last == old(nodes)[|old(nodes)| - 1]
      ensures last !in nodes && last.parent == null && last.left == null && last.right == null
      ensures Contents() == old(Contents())[..|nodes|]
    {
      ghost var n := |nodes| - 1;
      forall k | 0 <= k <= n
        ensures LinksOf(nodes, k) == LinksAt(nodes, k)
      {
        WiredSaysLinks(nodes, k);
      }
      assert Wired(nodes);
      last := SearchLastNode();
      hide Wired;
      assert LinksOf(nodes, n) == LinksAt(nodes, n);
      if last.parent == null {
        root := null;
      } else {
        Unhook(last, nodes);
      }
      nodes := nodes[..n];
      LinksSayWired(nodes);
    }

    /** The pointer updates that take the last node from its parent. */
    static method Unhook(last: Timer, ghost s: seq<Timer>)
      requires |s| > 1 && Distinct(s) && s[|s| - 1] == last && last.parent == s[Parent(|s| - 1)]
      requires forall k {:trigger LinksOf(s, k)} :: 0 <= k < |s| ==> LinksOf(s, k) == LinksAt(s, k)
      modifies s`parent, s`left, s`right
      ensures last.parent == null && last.left == null && last.right == null
      ensures var t := s[..|s| - 1];
              forall k {:trigger LinksOf(t, k)} :: 0 <= k < |t| ==> LinksOf(t, k) == LinksAt(t, k)
    {
      ghost var n, t := |s| - 1, s[..|s| - 1];
      assert LinksOf(s, n) == LinksAt(s, n) && LinksOf(s, Parent(n)) == LinksAt(s, Parent(n));
      if last.parent.left == last {
        last.parent.left := null;
      } else {
        last.parent.right := null;
      }
      last.parent := null;
      forall k | 0 <= k < |t|
        ensures LinksOf(t, k) == LinksAt(t, k)
      {
        assert old(LinksOf(s, k)) == LinksAt(s, k);
      }
    }

    /** `last`, which is in no tree, takes the place of `node`, which leaves the tree. */
    method TakePlace(last: Timer, node: Timer, ghost i: nat)
      requires Valid() && i < |nodes| && nodes[i] == node && last !in nodes
      modifies this, nodes`parent, nodes`left, nodes`right, last`parent, last`left, last`right
      ensures Valid() && nodes == old(nodes)[i := last]
      ensures Contents() == old(Contents())[i := Entry(last, last.timeToExpire)]
      ensures node.parent == null && node.left == null && node.right == null
    {
      ghost var s, t := nodes, nodes[i := last];
      forall k | 0 <= k < |s|
        ensures LinksOf(s, k) == LinksAt(s, k)
      {
        WiredSaysLinks(s, k);
      }
      Inherit(last, node, s, i);
      if root == node {
        root := last;
      }
      nodes := t;
      LinksSayWired(nodes);
    }

    /** The pointer updates that put `last` where `node` was. */
    static method Inherit(last: Timer, node: Timer, ghost s: seq<Timer>, ghost i: nat)
      requires Distinct(s) && i < |s| && s[i] == node && last !in s
      requires forall k {:trigger LinksOf(s, k)} :: 0 <= k < |s| ==> LinksOf(s, k) == LinksAt(s, k)
      modifies s`parent, s`left, s`right, last`parent, last`left, last`right
      ensures forall k {:trigger LinksOf(s[i := last], k)} :: 0 <= k < |s| ==>
                LinksOf(s[i := last], k) == LinksAt(s[i := last], k)
      ensures node.parent == null && node.left == null && node.right == null
    {
      assert LinksOf(s, i) == LinksAt(s, i);
      ghost var t := s[i := last];
      Succeed(last, node, s, i);
      assert LinksOf(s, i) == LinksAt(s, i);
      SetChildren(last, node.left, node.right, t, i, 2 * i + 1, 2 * i + 2);
      node.parent, node.left, node.right := null, null, null;
      forall k | 0 <= k < |s|
        ensures LinksOf(t, k) == LinksAt(t, k)
      {
        PlaceTaken(s, i, last, k);
      }
    }

    /** `last` gets the parent of `node`, which points to it. */
    static method Succeed(last: Timer, node: Timer, ghost s: seq<Timer>, ghost i: nat)
      requires Distinct(s) && i < |s| && s[i] == node && last !in s
      requires forall k {:trigger LinksOf(s, k)} :: 0 <= k < |s| ==> LinksOf(s, k) == LinksAt(s, k)
      modifies s`left, s`right, last`parent
      ensures unchanged(node) && last.parent == node.parent
      ensures forall k {:trigger LinksOf(s[i := last], k)} :: 0 <= k < |s| && k != i ==>
                LinksOf(s[i := last], k) == Succeeded(s, i, last, k)
    {
      assert LinksOf(s, i) == LinksAt(s, i);
      assert i > 0 ==> LinksOf(s, Parent(i)) == LinksAt(s, Parent(i));
      last.parent := node.parent;
      if node.parent != null {
        if node.parent.left == node {
          node.parent.left := last;
        } else {
          node.parent.right := last;
        }
      }
      forall k | 0 <= k < |s| && k != i
        ensures LinksOf(s[i := last], k) == Succeeded(s, i, last, k)
      {
        assert old(LinksOf(s, k)) == LinksAt(s, k);
      }
    }

    /** detach_heap_node: take out the root. */
    method DetachHeapNode() returns (detached: Timer?)
      requires Valid()
      modifies this, nodes`parent, nodes`left, nodes`right
      ensures Valid()
      ensures old(nodes) == [] ==> detached == null && unchanged(this)
      ensures old(nodes) != [] ==> detached == old(nodes)[0] && Contents() == Detach(old(Contents()))
      ensures detached != null ==>
                detached !in nodes && detached.parent == null && detached.left == null && detached.right == null
      ensures forall n :: n in nodes ==> n in old(nodes)
    {
      if root == null {
        return null;
      }
      var last := RemoveLast();
      if root == null {
        return last;
      }
      detached := root;
      Replace(last, detached, 0);
    }

    /** delete_heap_node: take out any node; a node that is in no tree is left alone. */
    method DeleteHeapNode(node: Timer, ghost i: nat)
      requires Valid()
      requires if node in nodes then i < |nodes| && nodes[i] == node
               else node.parent == null && node.left == null && node.right == null
      modifies this, nodes`parent, nodes`left, nodes`right
      ensures Valid() && node !in nodes && node.parent == null && node.left == null && node.right == null
      ensures node !in old(nodes) ==> unchanged(this) && unchanged(old(nodes))
      ensures node in old(nodes) ==> Contents() == Delete(old(Contents()), i)
      ensures forall n :: n in nodes ==> n in old(nodes)
    {
      hide Wired, SiftDown;
      var found := InTree(node, i);
      if !found {
        return;
      }
      var last := RemoveLast();
      if root != null && node != last {
        Replace(last, node, i);
      }
    }

    method Replace(last: Timer, node: Timer, ghost i: nat)
      requires Valid() && i < |nodes| && nodes[i] == node && last !in nodes
      modifies this, nodes`parent, nodes`left, nodes`right, last`parent, last`left, last`right
      ensures Valid() && SameNodes(nodes, old(nodes)[i := last]) && node !in nodes
      ensures Contents() == SiftDown(old(Contents())[i := Entry(last, last.timeToExpire)], i)
      ensures node.parent == null && node.left == null && node.right == null
    {
      TakePlace(last, node, i);
      AdjustHeapNode(last, i);
    }

    /** Climb to the top of the tree that holds `node` and compare it with the root. */
    method InTree(node: Timer, ghost i: nat) returns (found: bool)
      requires Valid()
      requires if node in nodes then i < |nodes| && nodes[i] == node else node.parent == null
      ensures found == (node in nodes)
    {
      var current: Timer := node;
      ghost var k: nat := i;
      while current.parent != null
        invariant current.parent != null ==> node in nodes
        invariant if node in nodes then k < |nodes| && nodes[k] == current else current == node
        decreases k
      {
        WiredSaysLinks(nodes, k);
        current := current.parent;
        k := Parent(k);
      }
      if node in nodes {
        WiredSaysLinks(nodes, k);
      }
      found := root == current;
    }
  }
}
