/**
 * src/io/github/ethankelly/graph/decomposition/BinaryTree.java: an unbalanced binary
 * search tree of ints.  The recursive helpers (addRecursive, deleteRecursive,
 * containsNodeRecursive, getSizeRecursive, findSmallestValue, traverseInOrder) are
 * functions on a tree value; the BinaryTree object, whose root field add and delete
 * reassign, is a class.
 */
module BinaryTrees {
  import opened Wrappers

  datatype Tree = Leaf | Node(left: Tree, value: int, right: Tree)

  /** The values stored in a tree. */
  ghost function Elems(t: Tree): set<int>
  {
    match t
    case Leaf => {}
    case Node(l, v, r) => Elems(l) + {v} + Elems(r)
  }

  /** Search-tree order: everything left of a node is smaller, everything right of it larger. */
  ghost predicate Bst(t: Tree)
  {
    match t
    case Leaf => true
    case Node(l, v, r) =>
      Bst(l) && Bst(r)
      && (forall x :: x in Elems(l) ==> x < v)
      && (forall x :: x in Elems(r) ==> v < x)
  }

  /** addRecursive: descend left on a smaller value, right on a larger one, and hang a new node at the empty slot. */
  function AddRecursive(t: Tree, value: int): (r: Tree)
    ensures Elems(r) == Elems(t) + {value}
    ensures Bst(t) ==> Bst(r)
    ensures Bst(t) && value in Elems(t) ==> r == t
  {
    match t
    case Leaf => Node(Leaf, value, Leaf)
    case Node(l, v, rt) =>
      if value < v then Node(AddRecursive(l, value), v, rt)
      else if value > v then Node(l, v, AddRecursive(rt, value))
      else t
  }

  /** getSizeRecursive: the number of nodes. */
  function SizeRecursive(t: Tree): nat
  {
    match t
    case Leaf => 0
    case Node(l, _, r) => SizeRecursive(l) + 1 + SizeRecursive(r)
  }

  /** In a search tree every node holds a different value, so the size is the number of values. */
  lemma {:induction false} SizeIsCount(t: Tree)
    requires Bst(t)
    ensures SizeRecursive(t) == |Elems(t)|
  {
    match t
    case Leaf =>
    case Node(l, v, r) =>
      SizeIsCount(l);
      SizeIsCount(r);
      assert Elems(l) !! Elems(r) by {
        forall x | x in Elems(l) ensures x !in Elems(r) {
        }
      }
      assert v !in Elems(l) + Elems(r);
      assert Elems(t) == (Elems(l) + Elems(r)) + {v};
  }

  /** Adding a value not yet in a search tree raises its size by one; adding one already there leaves it. */
  lemma AddSize(t: Tree, value: int)
    requires Bst(t)
    ensures SizeRecursive(AddRecursive(t, value)) == if value in Elems(t) then SizeRecursive(t) else SizeRecursive(t) + 1
  {
    SizeIsCount(t);
    SizeIsCount(AddRecursive(t, value));
  }

  /** containsNodeRecursive: follow the search path for the value. */
  function ContainsRecursive(t: Tree, value: int): (b: bool)
    ensures Bst(t) ==> (b <==> value in Elems(t))
    ensures b ==> value in Elems(t)
  {
    match t
    case Leaf => false
    case Node(l, v, r) =>
      if value == v then true
      else if value < v then ContainsRecursive(l, value)
      else ContainsRecursive(r, value)
  }

  /** findSmallestValue: follow left children to the end. */
  function FindSmallestValue(t: Tree): (m: int)
    requires t.Node?
    ensures m in Elems(t)
    ensures Bst(t) ==> forall x :: x in Elems(t) ==> m <= x
  {
    if t.left == Leaf then t.value else FindSmallestValue(t.left)
  }

  /**
   * deleteRecursive: a matching node with no children disappears, one with a single
   * child is replaced by it, and one with two children takes the smallest value of its
   * right subtree, which is then deleted from that subtree.
   */
  function DeleteRecursive(t: Tree, value: int): (r: Tree)
    ensures Bst(t) ==> Bst(r) && Elems(r) == Elems(t) - {value}
    ensures value !in Elems(t) ==> r == t
  {
    match t
    case Leaf => Leaf
    case Node(l, v, rt) =>
      if value == v then
        if l == Leaf && rt == Leaf then Leaf
        else if rt == Leaf then l
        else if l == Leaf then rt
        else
          var m := FindSmallestValue(rt);
          Node(l, m, DeleteRecursive(rt, m))
      else if value < v then Node(DeleteRecursive(l, value), v, rt)
      else Node(l, v, DeleteRecursive(rt, value))
  }

  /**
   * Deleting the value of a node with two children puts the in-order successor in its
   * place: the smallest stored value greater than the deleted one.
   */
  lemma DeleteTakesSuccessor(t: Tree)
    requires Bst(t) && t.Node? && t.left.Node? && t.right.Node?
    ensures var r := DeleteRecursive(t, t.value);
            r.Node? && r.value > t.value && r.value in Elems(t)
            && forall x :: x in Elems(t) && x > t.value ==> r.value <= x
  {
    var m := FindSmallestValue(t.right);
    forall x | x in Elems(t) && x > t.value ensures m <= x {
      if x in Elems(t.left) {
      }
    }
  }

  /** traverseInOrder: left subtree, node, right subtree. */
  function TraverseInOrder(t: Tree): seq<int>
  {
    match t
    case Leaf => []
    case Node(l, v, r) => TraverseInOrder(l) + [v] + TraverseInOrder(r)
  }

  /** The in-order visit of a search tree lists each stored value once, in ascending order. */
  lemma {:induction false} InOrderSorted(t: Tree)
    requires Bst(t)
    ensures Ascending(TraverseInOrder(t)) && (forall x :: x in TraverseInOrder(t) <==> x in Elems(t))
  {
    match t
    case Leaf =>
    case Node(l, v, r) =>
      InOrderSorted(l);
      InOrderSorted(r);
      var a, b := TraverseInOrder(l), TraverseInOrder(r);
      var s := a + [v] + b;
      forall i, j | 0 <= i < j < |s| ensures s[i] < s[j] {
        if j < |a| {
        } else if i >= |a| + 1 {
          assert s[i] == b[i - |a| - 1] && s[j] == b[j - |a| - 1];
        } else if j == |a| {
          assert s[i] == a[i] && a[i] in a && s[j] == v;
        } else if i == |a| {
          assert s[j] == b[j - |a| - 1] && b[j - |a| - 1] in b && s[i] == v;
        } else {
          assert s[i] == a[i] && a[i] in a;
          assert s[j] == b[j - |a| - 1] && b[j - |a| - 1] in b;
        }
      }
  }

  /** The BinaryTree object: its root is replaced by add and delete. */
  class BinaryTree {
    var root: Tree

    ghost predicate Valid()
      reads this
    {
      Bst(root)
    }

    constructor()
      ensures Valid() && root == Leaf
    {
      root := Leaf;
    }

    /** add(value): the value is stored afterwards and nothing else changes. */
    method Add(value: int)
      requires Valid()
      modifies this
      ensures Valid() && root == AddRecursive(old(root), value)
      ensures Elems(root) == Elems(old(root)) + {value}
    {
      root := AddRecursive(root, value);
    }

    /** delete(value): the value is gone afterwards and nothing else changes. */
    method Delete(value: int)
      requires Valid()
      modifies this
      ensures Valid() && root == DeleteRecursive(old(root), value)
      ensures Elems(root) == Elems(old(root)) - {value}
    {
      root := DeleteRecursive(root, value);
    }

    /** isEmpty(): the root is null. */
    function IsEmpty(): (b: bool)
      reads this
      ensures b <==> Elems(root) == {}
    {
      assert root.Node? ==> root.value in Elems(root);
      root == Leaf
    }

    /** getSize(): the number of values stored. */
    function GetSize(): (n: nat)
      reads this
      requires Valid()
      ensures n == |Elems(root)|
    {
      SizeIsCount(root);
      SizeRecursive(root)
    }

    /** contains(value): whether the value is stored. */
    function Contains(value: int): (b: bool)
      reads this
      requires Valid()
      ensures b <==> value in Elems(root)
    {
      ContainsRecursive(root, value)
    }
  }
}
