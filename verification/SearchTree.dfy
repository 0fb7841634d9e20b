// A search tree of memory blocks by their start addresses.  How the tree is
// balanced does not matter here.
module SearchTree {
  import opened Wrappers

  datatype Tree = Leaf | Node(left: Tree, start: int, size: nat, right: Tree)

  predicate Below(t: Tree, a: int) { t.Node? ==> t.start < a && Below(t.left, a) && Below(t.right, a) }

  predicate Above(t: Tree, a: int) { t.Node? ==> t.start > a && Above(t.left, a) && Above(t.right, a) }

  predicate Sorted(t: Tree) {
    t.Node? ==> Sorted(t.left) && Sorted(t.right) && Below(t.left, t.start) && Above(t.right, t.start)
  }

  // The size of the block that starts at a.
  function Lookup(t: Tree, a: int): Option<nat> {
    if t.Leaf? then None
    else if a < t.start then Lookup(t.left, a)
    else if a > t.start then Lookup(t.right, a)
    else Some(t.size)
  }

  lemma {:induction false} Absent(t: Tree, b: int, a: int)
    ensures Below(t, b) && a >= b ==> Lookup(t, a) == None
    ensures Above(t, b) && a <= b ==> Lookup(t, a) == None
  {
    if t.Node? {
      Absent(t.left, b, a);
      Absent(t.right, b, a);
    }
  }

  function Insert(t: Tree, start: int, size: nat): Tree {
    match t
    case Leaf => Node(Leaf, start, size, Leaf)
    case Node(l, s, n, r) =>
      if start < s then Node(Insert(l, start, size), s, n, r) else Node(l, s, n, Insert(r, start, size))
  }

  lemma {:induction false} InsertBounds(t: Tree, start: int, size: nat, b: int)
    ensures Below(t, b) && start < b ==> Below(Insert(t, start, size), b)
    ensures Above(t, b) && start > b ==> Above(Insert(t, start, size), b)
  {
    if t.Node? {
      InsertBounds(t.left, start, size, b);
      InsertBounds(t.right, start, size, b);
    }
  }

  lemma {:induction false} InsertAdds(t: Tree, start: int, size: nat)
    requires Sorted(t) && Lookup(t, start) == None
    ensures Sorted(Insert(t, start, size))
    ensures forall a :: Lookup(Insert(t, start, size), a) == if a == start then Some(size) else Lookup(t, a)
  {
    if t.Node? {
      if start < t.start {
        InsertAdds(t.left, start, size);
        InsertBounds(t.left, start, size, t.start);
      } else {
        InsertAdds(t.right, start, size);
        InsertBounds(t.right, start, size, t.start);
      }
    }
  }

  // The least entry, which moves to the place of the deleted one.
  function Least(t: Tree): (r: Tree)
    requires t.Node?
    ensures r.Node?
  {
    if t.left.Leaf? then t else Least(t.left)
  }

  function WithoutLeast(t: Tree): Tree
    requires t.Node?
  {
    if t.left.Leaf? then t.right else Node(WithoutLeast(t.left), t.start, t.size, t.right)
  }

  function Delete(t: Tree, start: int): Tree {
    match t
    case Leaf => Leaf
    case Node(l, s, n, r) =>
      if start < s then Node(Delete(l, start), s, n, r)
      else if start > s then Node(l, s, n, Delete(r, start))
      else if r.Leaf? then l
      else Node(l, Least(r).start, Least(r).size, WithoutLeast(r))
  }

  lemma {:induction false} AboveLess(t: Tree, b: int, d: int)
    requires d <= b
    ensures Above(t, b) ==> Above(t, d)
    ensures Below(t, d) ==> Below(t, b)
  {
    if t.Node? {
      AboveLess(t.left, b, d);
      AboveLess(t.right, b, d);
    }
  }

  lemma {:induction false} LeastBounds(t: Tree, b: int)
    requires t.Node?
    ensures Below(t, b) ==> Least(t).start < b && Below(WithoutLeast(t), b)
    ensures Above(t, b) ==> Least(t).start > b && Above(WithoutLeast(t), b)
  {
    if t.left.Node? {
      LeastBounds(t.left, b);
    }
  }

  lemma {:induction false} LeastTaken(t: Tree)
    requires t.Node? && Sorted(t)
    ensures Sorted(WithoutLeast(t)) && Above(WithoutLeast(t), Least(t).start)
    ensures Lookup(t, Least(t).start) == Some(Least(t).size)
    ensures forall a :: Lookup(WithoutLeast(t), a) == if a <= Least(t).start then None else Lookup(t, a)
    ensures forall a | a < Least(t).start :: Lookup(t, a) == None
  {
    if t.left.Node? {
      LeastTaken(t.left);
      LeastBounds(t.left, t.start);
      AboveLess(t.right, t.start, Least(t).start);
    } else {
      forall a | a <= t.start ensures Lookup(t.right, a) == None {
        Absent(t.right, t.start, a);
      }
    }
  }

  lemma {:induction false} DeleteBounds(t: Tree, start: int, b: int)
    ensures Below(t, b) ==> Below(Delete(t, start), b)
    ensures Above(t, b) ==> Above(Delete(t, start), b)
  {
    if t.Node? {
      DeleteBounds(t.left, start, b);
      DeleteBounds(t.right, start, b);
      if t.right.Node? {
        LeastBounds(t.right, b);
      }
    }
  }

  lemma {:induction false} DeleteRemoves(t: Tree, start: int)
    requires Sorted(t)
    ensures Sorted(Delete(t, start))
    ensures forall a :: Lookup(Delete(t, start), a) == if a == start then None else Lookup(t, a)
  {
    if t.Node? {
      if start < t.start {
        DeleteRemoves(t.left, start);
        DeleteBounds(t.left, start, t.start);
      } else if start > t.start {
        DeleteRemoves(t.right, start);
        DeleteBounds(t.right, start, t.start);
      } else {
        DeleteRoot(t);
      }
    }
  }

  lemma DeleteRoot(t: Tree)
    requires t.Node? && Sorted(t)
    ensures Sorted(Delete(t, t.start))
    ensures forall a :: Lookup(Delete(t, t.start), a) == if a == t.start then None else Lookup(t, a)
  {
    forall a | a >= t.start ensures Lookup(t.left, a) == None {
      Absent(t.left, t.start, a);
    }
    if t.right.Node? {
      LeastTaken(t.right);
      LeastBounds(t.right, t.start);
      AboveLess(t.left, Least(t.right).start, t.start);
    }
  }

  ghost predicate Holds(t: Tree, a: int, p: int) { Lookup(t, a).Some? && a <= p < a + Lookup(t, a).value }

  ghost predicate Apart(t: Tree) {
    forall a, b | Lookup(t, a).Some? && Lookup(t, b).Some? && a != b ::
      a + Lookup(t, a).value <= b || b + Lookup(t, b).value <= a
  }

  // The one block that holds p, if any.
  method Find(tree: Tree, p: int) returns (r: Option<int>)
    requires Sorted(tree) && Apart(tree)
    ensures match r
            case Some(a) => Holds(tree, a, p) && forall b | Holds(tree, b, p) :: b == a
            case None => forall a :: !Holds(tree, a, p)
  {
    var node := tree;
    while node.Node?
      invariant Sorted(node)
      invariant forall a | Lookup(node, a).Some? :: Lookup(tree, a) == Lookup(node, a)
      invariant forall a | Holds(tree, a, p) :: Holds(node, a, p)
      decreases node
    {
      AtRoot(tree, node, p);
      if p < node.start {
        node := node.left;
      } else if p >= node.start + node.size {
        node := node.right;
      } else {
        return Some(node.start);
      }
    }
    return None;
  }

  // Where to look for the block, from a node of a tree.
  lemma AtRoot(tree: Tree, node: Tree, p: int)
    requires Sorted(node) && Apart(tree) && node.Node?
    requires forall a | Lookup(node, a).Some? :: Lookup(tree, a) == Lookup(node, a)
    requires forall a | Holds(tree, a, p) :: Holds(node, a, p)
    ensures Lookup(tree, node.start) == Some(node.size)
    ensures forall a | Lookup(node.left, a).Some? :: Lookup(tree, a) == Lookup(node.left, a)
    ensures forall a | Lookup(node.right, a).Some? :: Lookup(tree, a) == Lookup(node.right, a)
    ensures p < node.start ==> forall a | Holds(tree, a, p) :: Holds(node.left, a, p)
    ensures p >= node.start + node.size ==> forall a | Holds(tree, a, p) :: Holds(node.right, a, p)
    ensures node.start <= p < node.start + node.size ==> forall b | Holds(tree, b, p) :: b == node.start
  {
    forall a
      ensures Lookup(node.left, a).Some? ==> a < node.start
      ensures Lookup(node.right, a).Some? ==> a > node.start
    {
      Absent(node.left, node.start, a);
      Absent(node.right, node.start, a);
    }
    assert Lookup(node, node.start).Some?;
  }
}
