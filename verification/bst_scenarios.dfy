/** Client runs of the search tree, one per scenario of the tree's own
    test suite that uses only the operations modelled here. Each method
    builds a tree the way the scenario does and states what the scenario
    expects of it. */
module BstScenarios {
  import opened TreeShape
  import opened Bst

  /** A new tree is empty. */
  method NewTreeIsEmpty() returns (t: Tree, e: bool)
    ensures t.Valid() && e
  {
    t := new Tree();
    e := t.Empty();
  }

  /** Looking up any element in a new tree is the empty-tree error. */
  method FindInEmptyTree() returns (r: Result<Node>)
    ensures r == Err(EmptyTree)
  {
    var t := new Tree();
    r := t.Find(0);
  }

  /** After the first insertion the tree holds one node. */
  method InsertFirst() returns (t: Tree, n: nat)
    ensures t.Valid() && n == 1
  {
    t := new Tree();
    t.Insert(3);
    n := t.Size();
  }

  /** Inserting 2 and then 1 makes 2 the root with 1 as its left child;
      the tree holds two nodes. */
  method InsertLeafLeft() returns (t: Tree, n: nat)
    ensures t.Valid() && t.root != null && t.root.elem == 2
    ensures t.root.left != null && t.root.left.elem == 1 && t.root.right == null
    ensures n == 2
  {
    t := new Tree();
    t.Insert(2);
    ghost var p := t.Find(1).value;
    assert p == t.root;
    t.Insert(1);
    n := t.Size();
  }

  /** Looking up a missing element returns the node it would be hung
      below: in the tree holding only 2, looking up 1 returns that node. */
  method FindReturnsInsertParent() returns (t: Tree, node: Node)
    ensures t.Valid() && node.elem == 2
  {
    t := new Tree();
    t.Insert(2);
    var r := t.Find(1);
    node := r.value;
  }

  /** Inserting an element that is already stored changes nothing: the tree
      holding 2 still holds one node after 2 is inserted again. */
  method InsertDuplicate() returns (t: Tree, n: nat)
    ensures t.Valid() && t.Contents() == {2} && n == 1
  {
    t := new Tree();
    t.Insert(2);
    t.Insert(2);
    n := t.Size();
  }
}
