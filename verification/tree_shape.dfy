/** The tree node record and a pure description of how a set of nodes is
    linked. A `Shape` records, for every node, the element and the three
    links the node holds, plus (for the proofs) the set of nodes in the
    subtree it heads. The search-tree invariant, the insertion step and all
    reasoning about them are stated here, on values, so that they do not
    depend on the heap. */
module TreeShape {

  /** One tree node: an element and three links. */
  class Node {
    var elem: int
    var left: Node?
    var right: Node?
    var parent: Node?

    /** A fresh node holding `x`, with all three links null. */
    constructor (x: int)
      ensures elem == x && left == null && right == null && parent == null
    {
      elem := x;
      left := null;
      right := null;
      parent := null;
    }
  }

  datatype Shape = Shape(
    root: Node?,
    nodes: set<Node>,
    elemOf: Node -> int,
    leftOf: Node -> Node?,
    rightOf: Node -> Node?,
    parentOf: Node -> Node?,
    subOf: Node -> set<Node>)
  {
    /** The nodes of the subtree below a (possibly null) link. */
    ghost function Sub(c: Node?): set<Node>
    {
      if c == null then {} else subOf(c)
    }

    /** The elements held by the nodes of `A`. */
    ghost function Elems(A: set<Node>): set<int>
    {
      set n | n in A :: elemOf(n)
    }

    /** The elements stored in the whole tree. */
    ghost function Contents(): set<int>
    {
      Elems(nodes)
    }

    /** The links are consistent: every child is a node whose parent link
        points back, the root has no parent and heads all nodes, and `subOf`
        is the subtree relation the child links generate. */
    ghost predicate Linked()
    {
      (root == null ==> nodes == {}) &&
      (root != null ==> root in nodes && parentOf(root) == null && subOf(root) == nodes) &&
      (forall n {:trigger leftOf(n)} :: n in nodes ==>
        (leftOf(n) != null ==> leftOf(n) in nodes && parentOf(leftOf(n)) == n) &&
        subOf(n) == {n} + Sub(leftOf(n)) + Sub(rightOf(n))) &&
      (forall n {:trigger rightOf(n)} :: n in nodes ==>
        (rightOf(n) != null ==> rightOf(n) in nodes && parentOf(rightOf(n)) == n) &&
        subOf(n) == {n} + Sub(leftOf(n)) + Sub(rightOf(n))) &&
      (forall a, b {:trigger Below(a, b)} :: a in nodes && b in nodes && Below(a, b) ==>
        subOf(a) <= subOf(b))
    }

    /** `a` lies in the subtree headed by `b`. */
    ghost predicate Below(a: Node, b: Node)
    {
      a in subOf(b)
    }

    /** Search-tree order: a left subtree holds only smaller elements, a
        right subtree only larger ones, and no element is held twice. */
    ghost predicate Ordered()
    {
      (forall n, m {:trigger m in Sub(leftOf(n))} :: n in nodes && m in Sub(leftOf(n)) ==>
        elemOf(m) < elemOf(n)) &&
      (forall n, m {:trigger m in Sub(rightOf(n))} :: n in nodes && m in Sub(rightOf(n)) ==>
        elemOf(n) < elemOf(m)) &&
      (forall a, b {:trigger elemOf(a), elemOf(b)} :: a in nodes && b in nodes && elemOf(a) == elemOf(b) ==>
        a == b)
    }

    ghost predicate Valid()
    {
      Linked() && Ordered()
    }

    /** `p` is where `x` would be attached: the child slot on `x`'s side is
        free, and `x` lies on the correct side of every node of `A` that has
        `p` in one of its subtrees. */
    ghost predicate InsertionPoint(p: Node, x: int, A: set<Node>)
    {
      (x < elemOf(p) ==> leftOf(p) == null) &&
      (elemOf(p) < x ==> rightOf(p) == null) &&
      (forall a {:trigger p in Sub(leftOf(a))} :: a in A && a in nodes && p in Sub(leftOf(a)) ==>
        x < elemOf(a)) &&
      (forall a {:trigger p in Sub(rightOf(a))} :: a in A && a in nodes && p in Sub(rightOf(a)) ==>
        elemOf(a) < x)
    }

    /** The shape after a new leaf `q` holding `x` is hung below `p`: on the
        left when `x` is smaller than `p`'s element, on the right otherwise. */
    ghost function Attach(p: Node, q: Node, x: int): Shape
    {
      var goesLeft := x < elemOf(p);
      Shape(root, nodes + {q},
        (n: Node) => if n == q then x else elemOf(n),
        (n: Node) => if n == q then null else if n == p && goesLeft then q else leftOf(n),
        (n: Node) => if n == q then null else if n == p && !goesLeft then q else rightOf(n),
        (n: Node) => if n == q then p else parentOf(n),
        (n: Node) => if n == q then {q} else if p in subOf(n) then subOf(n) + {q} else subOf(n))
    }
  }

  /** The shape with no nodes. */
  ghost function EmptyShape(): (s: Shape)
    ensures s.Valid() && s.root == null && s.Contents() == {}
  {
    Shape(null, {}, _ => 0, _ => null, _ => null, _ => null, _ => {})
  }

  /** The shape of a single root node `q` holding `x`. */
  ghost function Singleton(q: Node, x: int): (s: Shape)
    ensures s.Valid() && s.root == q && s.nodes == {q} && s.Contents() == {x}
    ensures s.elemOf(q) == x && s.leftOf(q) == null && s.rightOf(q) == null && s.parentOf(q) == null
  {
    var s := Shape(q, {q}, _ => x, _ => null, _ => null, _ => null, _ => {q});
    assert s.Elems({q}) == {x};
    s
  }

  /** Facts about one node of a valid shape: it heads its own subtree, which
      is itself, its left subtree and its right subtree; the two are
      disjoint and hold smaller and larger elements respectively; every node
      of its subtree heads a subtree inside it. */
  lemma NodeFacts(s: Shape, c: Node)
    requires s.Valid() && c in s.nodes
    ensures s.Sub(c) == {c} + s.Sub(s.leftOf(c)) + s.Sub(s.rightOf(c))
    ensures s.Sub(s.leftOf(c)) <= s.nodes && s.Sub(s.rightOf(c)) <= s.nodes
    ensures c !in s.Sub(s.leftOf(c)) && c !in s.Sub(s.rightOf(c))
    ensures forall m :: m in s.Sub(s.leftOf(c)) ==> s.elemOf(m) < s.elemOf(c) && m !in s.Sub(s.rightOf(c))
    ensures forall m :: m in s.Sub(s.rightOf(c)) ==> s.elemOf(c) < s.elemOf(m)
    ensures forall a :: a in s.Sub(c) ==>
      s.Sub(s.leftOf(a)) <= s.Sub(c) && s.Sub(s.rightOf(a)) <= s.Sub(c)
  {
    assert s.subOf(c) <= s.nodes by {
      if s.root != null {
        assert s.Below(c, s.root);
      }
    }
    forall a | a in s.Sub(c) ensures s.Sub(s.leftOf(a)) <= s.Sub(c) && s.Sub(s.rightOf(a)) <= s.Sub(c) {
      assert a in s.nodes && s.Below(a, c);
    }
  }

  /** The subtree of a node counts the node itself and its two child
      subtrees, each strictly smaller than the whole. */
  lemma SubSizes(s: Shape, c: Node)
    requires s.Valid() && c in s.nodes
    ensures s.leftOf(c) == null || s.leftOf(c) in s.nodes
    ensures s.rightOf(c) == null || s.rightOf(c) in s.nodes
    ensures s.Sub(s.leftOf(c)) < s.Sub(c) && s.Sub(s.rightOf(c)) < s.Sub(c)
    ensures |s.Sub(c)| == 1 + |s.Sub(s.leftOf(c))| + |s.Sub(s.rightOf(c))|
  {
    NodeFacts(s, c);
    assert s.Sub(s.leftOf(c)) * s.Sub(s.rightOf(c)) == {};
  }

  /** The elements of a node together with two sets of nodes. */
  lemma ElemsSplit(s: Shape, c: Node, L: set<Node>, R: set<Node>)
    ensures s.Elems({c} + L + R) == {s.elemOf(c)} + s.Elems(L) + s.Elems(R)
  {
  }

  /** A descent result found in the left subtree of `cur` is correct for
      `cur` itself. */
  lemma FindLeftStep(s: Shape, cur: Node, x: int, p: Node)
    requires s.Valid() && cur in s.nodes && s.leftOf(cur) != null && x < s.elemOf(cur)
    requires p in s.Sub(s.leftOf(cur))
    requires s.elemOf(p) == x <==> x in s.Elems(s.Sub(s.leftOf(cur)))
    requires s.elemOf(p) != x ==> s.InsertionPoint(p, x, s.Sub(s.leftOf(cur)))
    ensures p in s.Sub(cur)
    ensures s.elemOf(p) == x <==> x in s.Elems(s.Sub(cur))
    ensures s.elemOf(p) != x ==> s.InsertionPoint(p, x, s.Sub(cur))
  {
    NodeFacts(s, cur);
    ElemsSplit(s, cur, s.Sub(s.leftOf(cur)), s.Sub(s.rightOf(cur)));
    assert x !in s.Elems(s.Sub(s.rightOf(cur)));
    var r := s.rightOf(cur);
    if s.elemOf(p) != x && r != null {
      NodeFacts(s, r);
      forall a | a in s.Sub(r) ensures p !in s.Sub(s.leftOf(a)) && p !in s.Sub(s.rightOf(a)) { }
    }
  }

  /** A descent result found in the right subtree of `cur` is correct for
      `cur` itself. */
  lemma FindRightStep(s: Shape, cur: Node, x: int, p: Node)
    requires s.Valid() && cur in s.nodes && s.rightOf(cur) != null && s.elemOf(cur) < x
    requires p in s.Sub(s.rightOf(cur))
    requires s.elemOf(p) == x <==> x in s.Elems(s.Sub(s.rightOf(cur)))
    requires s.elemOf(p) != x ==> s.InsertionPoint(p, x, s.Sub(s.rightOf(cur)))
    ensures p in s.Sub(cur)
    ensures s.elemOf(p) == x <==> x in s.Elems(s.Sub(cur))
    ensures s.elemOf(p) != x ==> s.InsertionPoint(p, x, s.Sub(cur))
  {
    NodeFacts(s, cur);
    ElemsSplit(s, cur, s.Sub(s.leftOf(cur)), s.Sub(s.rightOf(cur)));
    assert x !in s.Elems(s.Sub(s.leftOf(cur)));
    var l := s.leftOf(cur);
    if s.elemOf(p) != x && l != null {
      NodeFacts(s, l);
      forall a | a in s.Sub(l) ensures p !in s.Sub(s.leftOf(a)) && p !in s.Sub(s.rightOf(a)) { }
    }
  }

  /** Nodes holding pairwise different elements hold as many elements as
      there are nodes. */
  lemma {:induction false} ElemsCard(s: Shape, A: set<Node>)
    requires forall a, b {:trigger s.elemOf(a), s.elemOf(b)} :: a in A && b in A && s.elemOf(a) == s.elemOf(b) ==> a == b
    ensures |s.Elems(A)| == |A|
  {
    if A != {} {
      var a :| a in A;
      var rest := A - {a};
      assert s.Elems(A) == s.Elems(rest) + {s.elemOf(a)};
      assert s.elemOf(a) !in s.Elems(rest);
      ElemsCard(s, rest);
    }
  }

  /** Below the new leaf's ancestors, hanging a new leaf leaves the subtree
      relation as it was, apart from adding the leaf itself. */
  lemma AttachBelow(s: Shape, p: Node, q: Node, x: int)
    requires s.Valid() && p in s.nodes && q !in s.nodes
    ensures var t := s.Attach(p, q, x);
      forall a, b :: a in t.nodes && b in t.nodes && t.Below(a, b) ==> t.subOf(a) <= t.subOf(b)
  {
    var t := s.Attach(p, q, x);
    forall a, b | a in t.nodes && b in t.nodes && t.Below(a, b) ensures t.subOf(a) <= t.subOf(b) {
      if a != q && b != q {
        assert s.Below(a, b);
      }
    }
  }

  /** After hanging a new leaf, one node's child links point back to it. */
  lemma AttachLinksAt(s: Shape, p: Node, q: Node, x: int, n: Node)
    requires s.Valid() && p in s.nodes && q !in s.nodes
    requires n in s.Attach(p, q, x).nodes
    ensures var t := s.Attach(p, q, x);
      (t.leftOf(n) != null ==> t.leftOf(n) in t.nodes && t.parentOf(t.leftOf(n)) == n) &&
      (t.rightOf(n) != null ==> t.rightOf(n) in t.nodes && t.parentOf(t.rightOf(n)) == n)
  {
    var t := s.Attach(p, q, x);
    if n != q && n != p {
      var l, r := s.leftOf(n), s.rightOf(n);
      assert t.leftOf(n) == l && t.rightOf(n) == r;
      assert l != null ==> l in s.nodes && s.parentOf(l) == n;
      assert r != null ==> r in s.nodes && s.parentOf(r) == n;
    }
  }

  /** After hanging a new leaf below `p`, the subtree of a node `n` is still
      `n` and its children's subtrees. Only the facts about `n` and `p` that
      the argument uses are required. */
  lemma AttachSubAt(s: Shape, p: Node, q: Node, x: int, n: Node)
    requires q !in s.nodes && p in s.nodes && (n == q || n in s.nodes)
    requires n in s.nodes ==> s.subOf(n) == {n} + s.Sub(s.leftOf(n)) + s.Sub(s.rightOf(n))
    requires n in s.nodes ==> q !in s.subOf(n) && s.leftOf(n) != q && s.rightOf(n) != q
    requires s.leftOf(p) != q && s.rightOf(p) != q
    requires p in s.subOf(p) && p !in s.Sub(s.leftOf(p)) && p !in s.Sub(s.rightOf(p))
    requires x < s.elemOf(p) ==> s.leftOf(p) == null
    requires s.elemOf(p) < x ==> s.rightOf(p) == null
    requires x != s.elemOf(p)
    ensures var t := s.Attach(p, q, x);
      t.subOf(n) == {n} + t.Sub(t.leftOf(n)) + t.Sub(t.rightOf(n))
  {
    var t := s.Attach(p, q, x);
    if n == p {
      var l, r := s.leftOf(p), s.rightOf(p);
      assert t.subOf(p) == s.subOf(p) + {q};
      if x < s.elemOf(p) {
        assert t.leftOf(p) == q && t.rightOf(p) == r;
        assert t.Sub(r) == s.Sub(r);
      } else {
        assert t.rightOf(p) == q && t.leftOf(p) == l;
        assert t.Sub(l) == s.Sub(l);
      }
    } else if n != q {
      var l, r := s.leftOf(n), s.rightOf(n);
      assert t.leftOf(n) == l && t.rightOf(n) == r;
      assert t.Sub(l) == if p in s.Sub(l) then s.Sub(l) + {q} else s.Sub(l);
      assert t.Sub(r) == if p in s.Sub(r) then s.Sub(r) + {q} else s.Sub(r);
    }
  }

  /** Hanging a new leaf at an insertion point keeps the links consistent. */
  lemma AttachLinked(s: Shape, p: Node, q: Node, x: int)
    requires s.Valid() && p in s.nodes && q !in s.nodes && x != s.elemOf(p)
    requires s.InsertionPoint(p, x, s.nodes)
    ensures s.Attach(p, q, x).Linked()
  {
    var t := s.Attach(p, q, x);
    assert s.root != null;
    assert s.Below(p, s.root);
    AttachBelow(s, p, q, x);
    NodeFacts(s, p);
    forall n | n in t.nodes
      ensures (t.leftOf(n) != null ==> t.leftOf(n) in t.nodes && t.parentOf(t.leftOf(n)) == n)
      ensures (t.rightOf(n) != null ==> t.rightOf(n) in t.nodes && t.parentOf(t.rightOf(n)) == n)
      ensures t.subOf(n) == {n} + t.Sub(t.leftOf(n)) + t.Sub(t.rightOf(n))
    {
      AttachLinksAt(s, p, q, x, n);
      if n in s.nodes {
        NodeFacts(s, n);
      }
      AttachSubAt(s, p, q, x, n);
    }
  }

  /** After hanging a new leaf at an insertion point, the order holds
      between one node and one member of its subtrees. */
  lemma AttachOrderAt(s: Shape, p: Node, q: Node, x: int, n: Node, m: Node)
    requires q !in s.nodes && p in s.nodes && (n == q || n in s.nodes)
    requires n in s.nodes ==> s.leftOf(n) != q && s.rightOf(n) != q
    requires n in s.nodes ==> s.Sub(s.leftOf(n)) <= s.nodes && s.Sub(s.rightOf(n)) <= s.nodes
    requires n in s.nodes ==> forall k :: k in s.Sub(s.leftOf(n)) ==> s.elemOf(k) < s.elemOf(n)
    requires n in s.nodes ==> forall k :: k in s.Sub(s.rightOf(n)) ==> s.elemOf(n) < s.elemOf(k)
    requires n in s.nodes && p in s.Sub(s.leftOf(n)) ==> x < s.elemOf(n)
    requires n in s.nodes && p in s.Sub(s.rightOf(n)) ==> s.elemOf(n) < x
    requires p !in s.Sub(s.leftOf(p)) && p !in s.Sub(s.rightOf(p))
    requires x < s.elemOf(p) ==> s.leftOf(p) == null
    requires s.elemOf(p) < x ==> s.rightOf(p) == null
    requires x != s.elemOf(p)
    ensures var t := s.Attach(p, q, x);
      (m in t.Sub(t.leftOf(n)) ==> t.elemOf(m) < t.elemOf(n)) &&
      (m in t.Sub(t.rightOf(n)) ==> t.elemOf(n) < t.elemOf(m))
  {
    var t := s.Attach(p, q, x);
    if n != q {
      var l, r := s.leftOf(n), s.rightOf(n);
      if n == p {
        if x < s.elemOf(p) {
          assert t.leftOf(p) == q && t.rightOf(p) == r;
          assert t.Sub(r) == s.Sub(r);
        } else {
          assert t.rightOf(p) == q && t.leftOf(p) == l;
          assert t.Sub(l) == s.Sub(l);
        }
      } else {
        assert t.leftOf(n) == l && t.rightOf(n) == r;
        assert t.Sub(l) == if p in s.Sub(l) then s.Sub(l) + {q} else s.Sub(l);
        assert t.Sub(r) == if p in s.Sub(r) then s.Sub(r) + {q} else s.Sub(r);
      }
    }
  }

  /** The order between one node of the extended tree and one member of
      its subtrees, from the validity of the original shape. */
  lemma AttachOrderIn(s: Shape, p: Node, q: Node, x: int, n: Node, m: Node)
    requires s.Valid() && p in s.nodes && q !in s.nodes && x != s.elemOf(p)
    requires s.InsertionPoint(p, x, s.nodes)
    requires n in s.Attach(p, q, x).nodes
    ensures var t := s.Attach(p, q, x);
      (m in t.Sub(t.leftOf(n)) ==> t.elemOf(m) < t.elemOf(n)) &&
      (m in t.Sub(t.rightOf(n)) ==> t.elemOf(n) < t.elemOf(m))
  {
    NodeFacts(s, p);
    if n in s.nodes {
      NodeFacts(s, n);
    }
    AttachOrderAt(s, p, q, x, n, m);
  }

  /** A new node holding an element not yet stored keeps the elements
      pairwise distinct. */
  lemma AttachDistinct(s: Shape, p: Node, q: Node, x: int)
    requires s.Ordered() && q !in s.nodes && x !in s.Contents()
    ensures var t := s.Attach(p, q, x);
      forall a, b :: a in t.nodes && b in t.nodes && t.elemOf(a) == t.elemOf(b) ==> a == b
  {
    var t := s.Attach(p, q, x);
    forall b | b in s.nodes ensures s.elemOf(b) != x {
      assert s.elemOf(b) in s.Contents();
    }
  }

  /** Hanging a new leaf at an insertion point keeps the search-tree order. */
  lemma AttachOrdered(s: Shape, p: Node, q: Node, x: int)
    requires s.Valid() && p in s.nodes && q !in s.nodes && x !in s.Contents()
    requires s.InsertionPoint(p, x, s.nodes)
    ensures x != s.elemOf(p)
    ensures s.Attach(p, q, x).Linked() && s.Attach(p, q, x).Ordered()
  {
    assert s.elemOf(p) in s.Contents();
    AttachLinked(s, p, q, x);
    var t := s.Attach(p, q, x);
    forall n, m | n in t.nodes && m in t.Sub(t.leftOf(n)) ensures t.elemOf(m) < t.elemOf(n) {
      AttachOrderIn(s, p, q, x, n, m);
    }
    forall n, m | n in t.nodes && m in t.Sub(t.rightOf(n)) ensures t.elemOf(n) < t.elemOf(m) {
      AttachOrderIn(s, p, q, x, n, m);
    }
    AttachDistinct(s, p, q, x);
  }

  /** Hanging a new leaf `q` holding `x` adds `x` to the stored elements and
      one node to the tree. */
  lemma AttachContents(s: Shape, p: Node, q: Node, x: int)
    requires q !in s.nodes
    ensures s.Attach(p, q, x).Contents() == s.Contents() + {x}
    ensures |s.Attach(p, q, x).nodes| == |s.nodes| + 1
  {
    var t := s.Attach(p, q, x);
    assert t.nodes == s.nodes + {q};
    forall n | n in s.nodes ensures t.elemOf(n) == s.elemOf(n) { }
    assert t.Elems(t.nodes) == s.Elems(s.nodes) + {x};
  }

  /** Hanging a new leaf holding `x` at an insertion point yields a valid
      shape that stores exactly the old elements and `x`, with one node more. */
  lemma AttachValid(s: Shape, p: Node, q: Node, x: int)
    requires s.Valid() && p in s.nodes && q !in s.nodes && x !in s.Contents()
    requires s.InsertionPoint(p, x, s.nodes)
    ensures s.Attach(p, q, x).Valid()
    ensures s.Attach(p, q, x).Contents() == s.Contents() + {x}
    ensures |s.Attach(p, q, x).nodes| == |s.nodes| + 1
  {
    AttachOrdered(s, p, q, x);
    AttachContents(s, p, q, x);
  }

  /** Every node strictly inside the subtree of `b` has a parent inside
      that subtree, and is one of that parent's children. */
  lemma {:induction false} ParentLinksBelow(s: Shape, b: Node)
    requires s.Valid() && b in s.nodes
    ensures forall n :: n in s.subOf(b) && n != b ==>
      s.parentOf(n) != null && s.parentOf(n) in s.subOf(b) &&
      (s.leftOf(s.parentOf(n)) == n || s.rightOf(s.parentOf(n)) == n)
    decreases s.subOf(b)
  {
    NodeFacts(s, b);
    var l, r := s.leftOf(b), s.rightOf(b);
    forall n | n in s.subOf(b) && n != b
      ensures s.parentOf(n) != null && s.parentOf(n) in s.subOf(b)
      ensures s.leftOf(s.parentOf(n)) == n || s.rightOf(s.parentOf(n)) == n
    {
      if n in s.Sub(l) {
        if n != l {
          ParentLinksBelow(s, l);
        }
      } else {
        if n != r {
          ParentLinksBelow(s, r);
        }
      }
    }
  }

  /** Parent links agree with child links: the root has no parent, and
      every other node has a parent in the tree that holds it as its left or
      its right child. */
  lemma ParentLinks(s: Shape)
    requires s.Valid()
    ensures s.root != null ==> s.parentOf(s.root) == null
    ensures forall n :: n in s.nodes && n != s.root ==>
      s.parentOf(n) != null && s.parentOf(n) in s.nodes &&
      (s.leftOf(s.parentOf(n)) == n || s.rightOf(s.parentOf(n)) == n)
  {
    if s.root != null {
      ParentLinksBelow(s, s.root);
    }
  }
}
