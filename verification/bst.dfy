/** The search tree object: a nullable root pointer over `TreeShape.Node`s.
    Its ghost shape `S` records how the nodes are linked; `Valid()` says
    that the shape is a valid search tree and that every node's real fields
    agree with it. Lookup and counting read the real links; insertion
    rewrites them and moves the shape along. */
module Bst {
  import opened TreeShape

  datatype Error = EmptyTree

  /** Outcome of a lookup: a node, or the error raised on a tree with no root. */
  datatype Result<T> = Ok(value: T) | Err(error: Error)

  /** Every node of `s` carries in its fields the element and the links
      that `s` records for it. */
  ghost predicate Agrees(s: Shape)
    reads s.nodes
  {
    forall n {:trigger n.elem} {:trigger n.left} {:trigger n.right} {:trigger n.parent} ::
      n in s.nodes ==>
        n.elem == s.elemOf(n) && n.left == s.leftOf(n) &&
        n.right == s.rightOf(n) && n.parent == s.parentOf(n)
  }

  /** The link writes of `insert` keep the heap in agreement with the
      shape: once the fresh leaf `q` holding `x` is the child of `p` on
      `x`'s side, with `p` as its parent, and no other node has changed,
      the heap agrees with the shape moved along by `Attach`. */
  twostate lemma LinkAgrees(t: Tree, new p: Node, new q: Node, new x: int)
    requires old(Agrees(t.S)) && p in old(t.S.nodes) && q !in old(t.S.nodes)
    requires forall n :: n in old(t.S.nodes) && n != p ==> unchanged(n)
    requires q.elem == x && q.left == null && q.right == null && q.parent == p
    requires p.elem == old(p.elem) && p.parent == old(p.parent)
    requires x < p.elem ==> p.left == q && p.right == old(p.right)
    requires p.elem <= x ==> p.right == q && p.left == old(p.left)
    ensures Agrees(old(t.S).Attach(p, q, x))
  {
    var s := old(t.S);
    var u := s.Attach(p, q, x);
    forall n | n in u.nodes
      ensures n.elem == u.elemOf(n) && n.left == u.leftOf(n)
      ensures n.right == u.rightOf(n) && n.parent == u.parentOf(n)
    {
      if n != q {
        assert n in s.nodes && old(n.elem) == s.elemOf(n) && old(n.left) == s.leftOf(n);
        assert old(n.right) == s.rightOf(n) && old(n.parent) == s.parentOf(n);
      }
    }
  }

  /** A tree whose shape has been moved along by `Attach` at an insertion
      point of a valid shape, and whose heap agrees with the new shape, is
      valid; it has one node more and stores `x` besides the old elements. */
  lemma AttachedTreeValid(t: Tree, s: Shape, p: Node, q: Node, x: int)
    requires s.Valid() && p in s.nodes && q !in s.nodes && x !in s.Contents()
    requires s.InsertionPoint(p, x, s.nodes)
    requires t.S == s.Attach(p, q, x) && t.root == s.root && Agrees(t.S)
    ensures t.Valid()
    ensures t.S.nodes == s.nodes + {q} && t.Contents() == s.Contents() + {x}
    ensures |t.S.nodes| == |s.nodes| + 1
  {
    AttachValid(s, p, q, x);
  }

  /** The heap step of `insert` in full: once the fresh leaf `q` holding
      `x` is linked below the insertion point `p` and the shape is moved
      along by `Attach`, the tree is valid again, has one node more and
      stores `x` besides its old elements. */
  twostate lemma LeafAttached(t: Tree, new p: Node, new q: Node, new x: int)
    requires old(t.Valid()) && p in old(t.S.nodes) && q !in old(t.S.nodes)
    requires x !in old(t.Contents()) && old(t.S).InsertionPoint(p, x, old(t.S.nodes))
    requires forall n :: n in old(t.S.nodes) && n != p ==> unchanged(n)
    requires q.elem == x && q.left == null && q.right == null && q.parent == p
    requires p.elem == old(p.elem) && p.parent == old(p.parent)
    requires x < p.elem ==> p.left == q && p.right == old(p.right)
    requires p.elem <= x ==> p.right == q && p.left == old(p.left)
    requires t.S == old(t.S).Attach(p, q, x) && t.root == old(t.root)
    ensures t.Valid()
    ensures t.S.nodes == old(t.S.nodes) + {q} && t.Contents() == old(t.Contents()) + {x}
    ensures |t.S.nodes| == |old(t.S.nodes)| + 1
  {
    LinkAgrees(t, p, q, x);
    AttachedTreeValid(t, old(t.S), p, q, x);
  }

  /** The link writes of `insert`: the fresh leaf `q` holding `x` becomes
      the child of `p` on `x`'s side and gets `p` as its parent; no node of
      `t`'s shape other than `p` changes. */
  method LinkLeaf(t: Tree, p: Node, q: Node, x: int)
    requires p in t.S.nodes && q !in t.S.nodes && q.elem == x && q.left == null && q.right == null
    modifies p, q
    ensures forall n :: n in old(t.S.nodes) && n != p ==> unchanged(n)
    ensures q.elem == x && q.left == null && q.right == null && q.parent == p
    ensures p.elem == old(p.elem) && p.parent == old(p.parent)
    ensures x < p.elem ==> p.left == q && p.right == old(p.right)
    ensures p.elem <= x ==> p.right == q && p.left == old(p.left)
  {
    if x < p.elem {
      p.left := q;
    } else {
      p.right := q;
    }
    q.parent := p;
  }

  class Tree {
    var root: Node?

    /** How the nodes owned by the tree are linked. */
    ghost var S: Shape

    ghost predicate Valid()
      reads this, S.nodes
    {
      S.Valid() && root == S.root && Agrees(S)
    }

    /** The elements stored in the tree. */
    ghost function Contents(): set<int>
      reads this
    {
      S.Contents()
    }

    /** The tree `bst()` constructs: no root, no elements. */
    constructor ()
      ensures Valid() && root == null && S.nodes == {} && Contents() == {}
    {
      root := null;
      S := EmptyShape();
    }

    /** `recursive_find`: descend from `cur` toward `x`. A null start is the
        empty-tree error; otherwise the descent stops at the node holding
        `x`, or at the node whose child slot on `x`'s side is null. */
    function FindFrom(cur: Node?, x: int): (r: Result<Node>)
      requires Valid()
      requires cur == null || cur in S.nodes
      reads this, S.nodes
      ensures r.Err? <==> cur == null
      ensures r.Ok? ==> r.value in S.Sub(cur) && r.value in S.nodes
      ensures r.Ok? ==> (r.value.elem == x <==> x in S.Elems(S.Sub(cur)))
      ensures r.Ok? && r.value.elem != x ==> S.InsertionPoint(r.value, x, S.Sub(cur))
      decreases S.Sub(cur)
    {
      if cur == null then Err(EmptyTree)
      else
        var c: Node := cur;
        NodeFacts(S, c);
        if x == c.elem then Ok(c)
        else if x < c.elem then
          if c.left == null then Ok(c)
          else
            var r := FindFrom(c.left, x);
            FindLeftStep(S, c, x, r.value);
            r
        else
          if c.right == null then Ok(c)
          else
            var r := FindFrom(c.right, x);
            FindRightStep(S, c, x, r.value);
            r
    }

    /** `find`: the node holding `x` when `x` is stored; otherwise the node
        under which `x` would be inserted; `EmptyTree` when there is no root. */
    function Find(x: int): (r: Result<Node>)
      requires Valid()
      reads this, S.nodes
      ensures r.Err? <==> root == null
      ensures r.Ok? ==> r.value in S.nodes
      ensures r.Ok? ==> (r.value.elem == x <==> x in Contents())
      ensures r.Ok? && r.value.elem != x ==> S.InsertionPoint(r.value, x, S.nodes)
    {
      FindFrom(root, x)
    }

    /** `recursive_size`: the number of nodes below `cur`, counted by full
        traversal. */
    function SizeOf(cur: Node?): (r: nat)
      requires Valid()
      requires cur == null || cur in S.nodes
      reads this, S.nodes
      ensures r == |S.Sub(cur)|
      decreases S.Sub(cur)
    {
      if cur == null then 0
      else
        SubSizes(S, cur);
        1 + SizeOf(cur.left) + SizeOf(cur.right)
    }

    /** `size`: the number of nodes, which is the number of stored elements. */
    function Size(): (r: nat)
      requires Valid()
      reads this, S.nodes
      ensures r == |S.nodes|
      ensures r == |Contents()|
    {
      ElemsCard(S, S.nodes);
      SizeOf(root)
    }

    /** `empty`: whether the tree stores no element. */
    function Empty(): (r: bool)
      requires Valid()
      reads this, S.nodes
      ensures r <==> Contents() == {}
      ensures r <==> root == null
    {
      Size() == 0
    }

    /** `insert`: on an empty tree `x` becomes the root; a stored `x` is
        ignored; otherwise a new leaf holding `x` is hung below the node
        `Find(x)` returns, on the left when `x` is smaller than that node's
        element and on the right otherwise. No other node changes. */
    method Insert(x: int)
      requires Valid()
      modifies this, S.nodes
      ensures Valid()
      ensures Contents() == old(Contents()) + {x}
      ensures fresh(S.nodes - old(S.nodes))
      ensures |S.nodes| == |old(S.nodes)| + (if x in old(Contents()) then 0 else 1)
      ensures old(root) == null ==>
        root != null && S.nodes == {root} &&
        root.elem == x && root.left == null && root.right == null && root.parent == null
      ensures old(root) != null ==> root == old(root)
      ensures x in old(Contents()) ==> S == old(S) && forall n :: n in S.nodes ==> unchanged(n)
      ensures old(root) != null && x !in old(Contents()) ==>
        var p := old(Find(x)).value;
        var q := if x < p.elem then p.left else p.right;
        q != null && S.nodes == old(S.nodes) + {q} &&
        q.elem == x && q.left == null && q.right == null && q.parent == p &&
        p.elem == old(p.elem) && p.parent == old(p.parent) &&
        (x < p.elem ==> p.right == old(p.right)) &&
        (p.elem < x ==> p.left == old(p.left)) &&
        forall n :: n in old(S.nodes) && n != p ==> unchanged(n)
    {
      if root == null {
        var q := new Node(x);
        root := q;
        S := Singleton(q, x);
      } else {
        InsertBelowRoot(x);
      }
    }

    /** The branch of `insert` for a tree with a root. */
    method InsertBelowRoot(x: int)
      requires Valid() && root != null
      modifies this, S.nodes
      ensures Valid() && root == old(root)
      ensures Contents() == old(Contents()) + {x}
      ensures fresh(S.nodes - old(S.nodes))
      ensures |S.nodes| == |old(S.nodes)| + (if x in old(Contents()) then 0 else 1)
      ensures x in old(Contents()) ==> S == old(S) && forall n :: n in S.nodes ==> unchanged(n)
      ensures x !in old(Contents()) ==>
        var p := old(Find(x)).value;
        var q := if x < p.elem then p.left else p.right;
        q != null && S.nodes == old(S.nodes) + {q} &&
        q.elem == x && q.left == null && q.right == null && q.parent == p &&
        p.elem == old(p.elem) && p.parent == old(p.parent) &&
        (x < p.elem ==> p.right == old(p.right)) &&
        (p.elem < x ==> p.left == old(p.left)) &&
        forall n :: n in old(S.nodes) && n != p ==> unchanged(n)
    {
      var p := Find(x).value;
      if p.elem != x {
        var q := AttachLeaf(p, x);
      }
    }

    /** The insertion step of `insert`: a fresh leaf holding `x` becomes the
        child of `p` on `x`'s side, with `p` as its parent. */
    method AttachLeaf(p: Node, x: int) returns (q: Node)
      requires Valid()
      requires p in S.nodes && x !in Contents() && S.InsertionPoint(p, x, S.nodes)
      modifies this, p
      ensures Valid() && root == old(root)
      ensures fresh(q) && S.nodes == old(S.nodes) + {q} && Contents() == old(Contents()) + {x}
      ensures |S.nodes| == |old(S.nodes)| + 1
      ensures forall n :: n in old(S.nodes) && n != p ==> unchanged(n)
      ensures q.elem == x && q.left == null && q.right == null && q.parent == p
      ensures p.elem == old(p.elem) && p.parent == old(p.parent)
      ensures x < p.elem ==> p.left == q && p.right == old(p.right)
      ensures p.elem < x ==> p.right == q && p.left == old(p.left)
    {
      ghost var s0 := S;
      q := new Node(x);
      label Allocated:
      LinkLeaf(this, p, q, x);
      S := s0.Attach(p, q, x);
      LeafAttached@Allocated(this, p, q, x);
    }
  }
}
