/** `TreeMap` of `util/collections/treemap/tree_map.go`: the red-black tree on the heap, method by method. */
module TreeMaps {
  import opened Options
  import opened OrderedEntries
  import opened RedBlackTree
  import opened RedBlackRepair
  import opened TreeHeap
  import opened TreeSearch

  class TreeMap<K(!new), V> {
    const cmp: Comparator<K>
    var root: Node?<K, V>
    var size: int
    /** The tree that the heap below `root` represents, and its nodes. */
    ghost var shape: Shape<K, V>
    ghost var nodes: set<Node<K, V>>

    ghost function Mem(): Memory<K, V>
      reads this`nodes, nodes
    {
      Read(nodes)
    }

    /** The heap represents `Plug(c, t)`, and `t` is looked at. */
    ghost predicate Here(c: Hole<K, V>, t: Shape<K, V>)
      reads this`nodes, this`root, nodes
    {
      At(Mem(), c, t, root)
    }

    /** The part of the invariant that is about the represented tree alone. */
    ghost predicate Balanced()
      reads this
    {
      && TotalPreorder(cmp) && nodes == Nodes(shape)
      && RedBlackRoot(shape) && Sorted(cmp, InOrder(shape))
      && size == |InOrder(shape)|
    }

    ghost predicate Valid()
      reads this, nodes
    {
      Balanced() && Here(Top, shape)
    }

    ghost function Contents(): seq<(K, V)>
      reads this`shape
    {
      InOrder(shape)
    }

    constructor (cmp: Comparator<K>)
      requires TotalPreorder(cmp)
      ensures Valid() && this.cmp == cmp && Contents() == [] && fresh(nodes)
    {
      this.cmp := cmp;
      root, size, shape, nodes := null, 0, Leaf, {};
      new;
      assert RedBlack(shape, 0);
    }

    method SetColor(x: Node<K, V>, color: Color, ghost c: Hole<K, V>, ghost t: Shape<K, V>)
      requires Here(c, t) && t.Branch? && t.node == x
      modifies x`color
      ensures Here(c, Paint(t, color))
    {
      PaintAt(Mem(), c, t, root, color);
      ghost var m := Mem();
      x.color := color;
      assert Mem() == m[x := m[x].(color := color)];
    }

    /** The pointer code of the left rotation. */
    method RotateLeftLinks(n: Node<K, V>)
      requires n.right != null && n.right != n && n.parent != n && n.parent != n.right
      requires n.right.left != null ==> n.right.left != n && n.right.left != n.right && n.right.left != n.parent
      modifies this`root, n`right, n`parent, n.right`left, n.right`parent
      modifies (if n.right.left == null then {} else {n.right.left})`parent
      modifies (if n.parent == null then {} else {n.parent})`left, (if n.parent == null then {} else {n.parent})`right
      ensures var r, b, p := old(n.right), old(n.right.left), old(n.parent);
        && n.right == b && n.parent == r && r.left == n && r.parent == p
        && (b != null ==> b.parent == n)
        && root == (if p == null then r else old(root))
        && (p != null ==> if old(p.left) == n then p.left == r && p.right == old(p.right)
                          else p.left == old(p.left) && p.right == r)
    {
      var r := n.right;
      n.right := r.left;
      if r.left != null {
        r.left.parent := n;
      }
      r.parent := n.parent;
      if n.parent == null {
        root := r;
      } else if n == n.parent.left {
        n.parent.left := r;
      } else {
        n.parent.right := r;
      }
      r.left := n;
      n.parent := r;
    }

    method RotateLeftMem(n: Node<K, V>)
      requires CanTurnLeft(Mem(), n)
      modifies this`root, nodes
      ensures Mem() == TurnLeft(old(Mem()), n)
      ensures root == if old(n.parent) == null then old(n.right) else old(root)
    {
      ghost var m := Mem();
      ghost var r: Node<K, V>, p := n.right, n.parent;
      ghost var b := r.left;
      assert n in nodes && r in nodes && b == m[r].left && p == m[n].parent;
      assert p != null ==> m[p].left == p.left;
      RotateLeftLinks(n);
      ghost var m' := TurnLeft(m, n);
      forall x | x in nodes ensures x in m' && Mem()[x] == m'[x] {
        if x == n {
        } else if x == r {
        } else if x == b {
        } else if x == p {
        } else {
          assert m'[x] == m[x];
        }
      }
    }

    method RotateLeft(n: Node<K, V>, ghost c: Hole<K, V>, ghost t: Shape<K, V>)
      requires Here(c, t) && t.Branch? && t.node == n && t.right.Branch?
      modifies this`root, nodes
      ensures Here(c, RedBlackTree.RotateLeft(t))
    {
      TurnLeftAt(Mem(), c, t, root);
      RotateLeftMem(n);
    }

    /** The pointer code of the right rotation. */
    method RotateRightLinks(n: Node<K, V>)
      requires n.left != null && n.left != n && n.parent != n && n.parent != n.left
      requires n.left.right != null ==> n.left.right != n && n.left.right != n.left && n.left.right != n.parent
      modifies this`root, n`left, n`parent, n.left`right, n.left`parent
      modifies (if n.left.right == null then {} else {n.left.right})`parent
      modifies (if n.parent == null then {} else {n.parent})`right, (if n.parent == null then {} else {n.parent})`left
      ensures var r, b, p := old(n.left), old(n.left.right), old(n.parent);
        && n.left == b && n.parent == r && r.right == n && r.parent == p
        && (b != null ==> b.parent == n)
        && root == (if p == null then r else old(root))
        && (p != null ==> if old(p.right) == n then p.right == r && p.left == old(p.left)
                          else p.right == old(p.right) && p.left == r)
    {
      var r := n.left;
      n.left := r.right;
      if r.right != null {
        r.right.parent := n;
      }
      r.parent := n.parent;
      if n.parent == null {
        root := r;
      } else if n == n.parent.right {
        n.parent.right := r;
      } else {
        n.parent.left := r;
      }
      r.right := n;
      n.parent := r;
    }

    method RotateRightMem(n: Node<K, V>)
      requires CanTurnRight(Mem(), n)
      modifies this`root, nodes
      ensures Mem() == TurnRight(old(Mem()), n)
      ensures root == if old(n.parent) == null then old(n.left) else old(root)
    {
      ghost var m := Mem();
      ghost var r: Node<K, V>, p := n.left, n.parent;
      ghost var b := r.right;
      assert n in nodes && r in nodes && b == m[r].right && p == m[n].parent;
      assert p != null ==> m[p].right == p.right;
      RotateRightLinks(n);
      ghost var m' := TurnRight(m, n);
      forall x | x in nodes ensures x in m' && Mem()[x] == m'[x] {
        if x == n {
        } else if x == r {
        } else if x == b {
        } else if x == p {
        } else {
          assert m'[x] == m[x];
        }
      }
    }

    method RotateRight(n: Node<K, V>, ghost c: Hole<K, V>, ghost t: Shape<K, V>)
      requires Here(c, t) && t.Branch? && t.node == n && t.left.Branch?
      modifies this`root, nodes
      ensures Here(c, RedBlackTree.RotateRight(t))
    {
      TurnRightAt(Mem(), c, t, root);
      RotateRightMem(n);
    }

    /** The pointers around a position, in terms of its context. */
    lemma Around(c: Hole<K, V>, t: Shape<K, V>)
      requires Here(c, t)
      ensures t.Branch? ==> t.node in nodes && t.node.parent == Owner(c) && t.node.color == t.color
      ensures t.Branch? ==> t.node.left == Root(t.left) && t.node.right == Root(t.right)
      ensures t.Branch? ==> t.node.key == t.key && t.node.value == t.value
      ensures c.Frame? ==> c.node in nodes && c.node.color == c.color && c.node.parent == Owner(c.up)
      ensures c.Frame? && c.side.OnLeft? ==> c.node.left == Root(t) && c.node.right == Root(c.sibling)
      ensures c.Frame? && c.side.OnRight? ==> c.node.right == Root(t) && c.node.left == Root(c.sibling)
      ensures c.Frame? && t.Branch? ==> c.node.left != c.node.right
      ensures c.Frame? && c.sibling.Branch? ==> c.sibling.node in nodes && c.sibling.node.color == c.sibling.color
      ensures c.Top? ==> root == Root(t)
    {
      if c.Frame? && c.sibling.Branch? {
        assert Linked(Mem(), c.sibling, c.node);
      }
    }

    /** One level further up: the grandparent and the uncle. */
    lemma AroundParent(c: Hole<K, V>, t: Shape<K, V>)
      requires Here(c, t) && c.Frame? && c.up.Frame?
      ensures c.up.node in nodes && c.up.node.color == c.up.color && c.up.node != c.node
      ensures c.up.side.OnLeft? ==> c.up.node.left == c.node && c.up.node.right == Root(c.up.sibling)
      ensures c.up.side.OnRight? ==> c.up.node.right == c.node && c.up.node.left == Root(c.up.sibling)
      ensures c.up.node.left != c.up.node.right
      ensures c.up.sibling.Branch? ==> c.up.sibling.node in nodes && c.up.sibling.node.color == c.up.sibling.color
    {
      AtFill(Mem(), c, t, root);
      Around(c.up, Fill(c, t));
    }

    /** Colouring the parent of the position. */
    method SetOwnerColor(x: Node<K, V>, color: Color, ghost c: Hole<K, V>, ghost t: Shape<K, V>)
      requires Here(c, t) && c.Frame? && c.node == x
      modifies x`color
      ensures Here(c.(color := color), t)
    {
      AtFill(Mem(), c, t, root);
      SetColor(x, color, c.up, Fill(c, t));
      AtFill(Mem(), c.(color := color), t, root);
    }

    /** Colouring the other child of the parent. */
    method SetSiblingColor(x: Node<K, V>, color: Color, ghost c: Hole<K, V>, ghost t: Shape<K, V>)
      requires Here(c, t) && c.Frame? && c.sibling.Branch? && c.sibling.node == x
      modifies x`color
      ensures Here(c.(sibling := Paint(c.sibling, color)), t)
    {
      ghost var sib := Sibling(c, t);
      AtFill(Mem(), c, t, root);
      AtFill(Mem(), sib, c.sibling, root);
      SetColor(x, color, sib, c.sibling);
      AtFill(Mem(), sib, Paint(c.sibling, color), root);
      AtFill(Mem(), c.(sibling := Paint(c.sibling, color)), t, root);
    }

    /** Parent and uncle black, grandparent red: the branch both sides of `insertFixup` share. */
    method RecolourFamily(p: Node<K, V>, uncle: Node<K, V>, g: Node<K, V>, ghost c: Hole<K, V>, ghost t: Shape<K, V>)
      requires Here(c, t) && c.Frame? && c.up.Frame? && c.node == p && c.up.node == g
      requires c.up.sibling.Branch? && c.up.sibling.node == uncle
      modifies p`color, uncle`color, g`color
      ensures Here(c.up.up, Recoloured(c, t))
    {
      SetOwnerColor(p, Black, c, t);
      ghost var p' := Fill(c.(color := Black), t);
      AtFill(Mem(), c.(color := Black), t, root);
      SetSiblingColor(uncle, Black, c.up, p');
      ghost var u := c.up.(sibling := Paint(c.up.sibling, Black));
      SetOwnerColor(g, Red, u, p');
      AtFill(Mem(), u.(color := Red), p', root);
    }

    /** Parent black, grandparent red: what both sides do before the last rotation. */
    method BlackParentRedGrandparent(p: Node<K, V>, g: Node<K, V>, ghost c: Hole<K, V>, ghost t: Shape<K, V>)
      requires Here(c, t) && c.Frame? && c.up.Frame? && c.node == p && c.up.node == g
      modifies p`color, g`color
      ensures Here(c.up.up, BeforeRotation(c, t))
    {
      SetOwnerColor(p, Black, c, t);
      ghost var p' := Fill(c.(color := Black), t);
      AtFill(Mem(), c.(color := Black), t, root);
      SetOwnerColor(g, Red, c.up, p');
      AtFill(Mem(), c.up.(color := Red), p', root);
    }

    /** The inner grandchild changes places with its parent. */
    method StraightenUnderLeft(start: Node<K, V>, ghost c0: Hole<K, V>, ghost t0: Shape<K, V>, ghost h: nat)
      returns (n: Node<K, V>, ghost c: Hole<K, V>, ghost t: Shape<K, V>)
      requires Here(c0, t0) && t0.Branch? && t0.node == start && RedFocus(c0, t0, h) && start.parent == Owner(c0)
      requires IsRedFrame(c0) && c0.up.Frame? && c0.up.side.OnLeft? && c0.side.OnRight?
      modifies this`root, nodes
      ensures Here(c, t) && t.Branch? && t.node == n && RedFocus(c, t, h)
      ensures IsRedFrame(c) && c.up == c0.up && c.side.OnLeft? && Alike(Fill(c, t), Fill(c0, t0))
    {
      StraightenStep(c0, t0, h);
      AtFill(Mem(), c0, t0, root);
      n := start.parent;
      RotateLeft(n, c0.up, Fill(c0, t0));
      c, t := GoLeft(c0.up, Straightened(c0, t0)), Straightened(c0, t0).left;
      AtFill(Mem(), c, t, root);
    }

    /** The outer grandchild: parent black, grandparent red, grandparent rotated. */
    method OuterUnderLeft(p: Node<K, V>, g: Node<K, V>, ghost c: Hole<K, V>, ghost t: Shape<K, V>)
      requires Here(c, t) && c.Frame? && c.up.Frame? && c.node == p && c.up.node == g
      requires c.side.OnLeft? && c.up.side.OnLeft? && p in nodes && g in nodes
      modifies this`root, nodes
      ensures Here(RotatedHole(c, t), t)
    {
      BlackParentRedGrandparent(p, g, c, t);
      RotateRight(g, c.up.up, BeforeRotation(c, t));
      AtChildren(Mem(), c.up.up, Rotated(c, t), root);
    }

    /** The branch of `insertFixup` with a black or missing uncle, when the parent is a left child. */
    method RotateUnderLeft(start: Node<K, V>, ghost c0: Hole<K, V>, ghost t0: Shape<K, V>, ghost h: nat)
      returns (n: Node<K, V>, ghost c: Hole<K, V>, ghost t: Shape<K, V>)
      requires Here(c0, t0) && t0.Branch? && t0.node == start && RedFocus(c0, t0, h)
      requires IsRedFrame(c0) && c0.up.Frame? && c0.up.side.OnLeft? && !IsRed(c0.up.sibling)
      modifies this`root, nodes
      ensures Here(c, t) && t.Branch? && t.node == n && RedFocus(c, t, h) && c.Frame? && c.up == c0.up.up
      ensures Alike(Fill(c, t), Fill(c0.up, Fill(c0, t0)))
    {
      n, c, t := start, c0, t0;
      Around(c, t);
      AroundParent(c, t);
      if n == n.parent.right {
        n, c, t := StraightenUnderLeft(n, c, t, h);
        Around(c, t);
        AroundParent(c, t);
      }
      RotateStep(c, t, h);
      OuterUnderLeft(n.parent, n.parent.parent, c, t);
      c := RotatedHole(c, t);
    }

    /** One round of `insertFixup` when the parent is a left child. */
    method InsertFixupUnderLeft(start: Node<K, V>, ghost c0: Hole<K, V>, ghost t0: Shape<K, V>, ghost h0: nat)
      returns (n: Node<K, V>, ghost c: Hole<K, V>, ghost t: Shape<K, V>, ghost h: nat)
      requires Here(c0, t0) && t0.Branch? && t0.node == start && RedFocus(c0, t0, h0)
      requires IsRedFrame(c0) && c0.up.Frame? && c0.up.side.OnLeft?
      modifies this`root, nodes
      ensures Here(c, t) && t.Branch? && t.node == n && RedFocus(c, t, h) && Depth(c) < Depth(c0)
      ensures Alike(Plug(c, t), Plug(c0, t0))
    {
      n, c, t, h := start, c0, t0, h0;
      Around(c, t);
      AroundParent(c, t);
      var uncle := n.parent.parent.right;
      if uncle != null && uncle.color == Red {
        RecolourStep(c, t, h);
        RecolourFamily(n.parent, uncle, n.parent.parent, c, t);
        n := n.parent.parent;
        c, t, h := c.up.up, Recoloured(c, t), h + 1;
        AlikePlug(c, t, Fill(c0.up, Fill(c0, t0)));
      } else {
        n, c, t := RotateUnderLeft(n, c, t, h);
        AlikePlug(c.up, Fill(c, t), Fill(c0.up, Fill(c0, t0)));
      }
    }

    /** The inner grandchild changes places with its parent. */
    method StraightenUnderRight(start: Node<K, V>, ghost c0: Hole<K, V>, ghost t0: Shape<K, V>, ghost h: nat)
      returns (n: Node<K, V>, ghost c: Hole<K, V>, ghost t: Shape<K, V>)
      requires Here(c0, t0) && t0.Branch? && t0.node == start && RedFocus(c0, t0, h) && start.parent == Owner(c0)
      requires IsRedFrame(c0) && c0.up.Frame? && c0.up.side.OnRight? && c0.side.OnLeft?
      modifies this`root, nodes
      ensures Here(c, t) && t.Branch? && t.node == n && RedFocus(c, t, h)
      ensures IsRedFrame(c) && c.up == c0.up && c.side.OnRight? && Alike(Fill(c, t), Fill(c0, t0))
    {
      StraightenStep(c0, t0, h);
      AtFill(Mem(), c0, t0, root);
      n := start.parent;
      RotateRight(n, c0.up, Fill(c0, t0));
      c, t := GoRight(c0.up, Straightened(c0, t0)), Straightened(c0, t0).right;
      AtFill(Mem(), c, t, root);
    }

    /** The outer grandchild: parent black, grandparent red, grandparent rotated. */
    method OuterUnderRight(p: Node<K, V>, g: Node<K, V>, ghost c: Hole<K, V>, ghost t: Shape<K, V>)
      requires Here(c, t) && c.Frame? && c.up.Frame? && c.node == p && c.up.node == g
      requires c.side.OnRight? && c.up.side.OnRight? && p in nodes && g in nodes
      modifies this`root, nodes
      ensures Here(RotatedHole(c, t), t)
    {
      BlackParentRedGrandparent(p, g, c, t);
      RotateLeft(g, c.up.up, BeforeRotation(c, t));
      AtChildren(Mem(), c.up.up, Rotated(c, t), root);
    }

    /** The branch of `insertFixup` with a black or missing uncle, when the parent is a right child. */
    method RotateUnderRight(start: Node<K, V>, ghost c0: Hole<K, V>, ghost t0: Shape<K, V>, ghost h: nat)
      returns (n: Node<K, V>, ghost c: Hole<K, V>, ghost t: Shape<K, V>)
      requires Here(c0, t0) && t0.Branch? && t0.node == start && RedFocus(c0, t0, h)
      requires IsRedFrame(c0) && c0.up.Frame? && c0.up.side.OnRight? && !IsRed(c0.up.sibling)
      modifies this`root, nodes
      ensures Here(c, t) && t.Branch? && t.node == n && RedFocus(c, t, h) && c.Frame? && c.up == c0.up.up
      ensures Alike(Fill(c, t), Fill(c0.up, Fill(c0, t0)))
    {
      n, c, t := start, c0, t0;
      Around(c, t);
      AroundParent(c, t);
      if n == n.parent.left {
        n, c, t := StraightenUnderRight(n, c, t, h);
        Around(c, t);
        AroundParent(c, t);
      }
      RotateStep(c, t, h);
      OuterUnderRight(n.parent, n.parent.parent, c, t);
      c := RotatedHole(c, t);
    }

    /** One round of `insertFixup` when the parent is a right child. */
    method InsertFixupUnderRight(start: Node<K, V>, ghost c0: Hole<K, V>, ghost t0: Shape<K, V>, ghost h0: nat)
      returns (n: Node<K, V>, ghost c: Hole<K, V>, ghost t: Shape<K, V>, ghost h: nat)
      requires Here(c0, t0) && t0.Branch? && t0.node == start && RedFocus(c0, t0, h0)
      requires IsRedFrame(c0) && c0.up.Frame? && c0.up.side.OnRight?
      modifies this`root, nodes
      ensures Here(c, t) && t.Branch? && t.node == n && RedFocus(c, t, h) && Depth(c) < Depth(c0)
      ensures Alike(Plug(c, t), Plug(c0, t0))
    {
      n, c, t, h := start, c0, t0, h0;
      Around(c, t);
      AroundParent(c, t);
      var uncle := n.parent.parent.left;
      if uncle != null && uncle.color == Red {
        RecolourStep(c, t, h);
        RecolourFamily(n.parent, uncle, n.parent.parent, c, t);
        n := n.parent.parent;
        c, t, h := c.up.up, Recoloured(c, t), h + 1;
        AlikePlug(c, t, Fill(c0.up, Fill(c0, t0)));
      } else {
        n, c, t := RotateUnderRight(n, c, t, h);
        AlikePlug(c.up, Fill(c, t), Fill(c0.up, Fill(c0, t0)));
      }
    }

    method ColourRoot(ghost c: Hole<K, V>, ghost t: Shape<K, V>, ghost h: nat)
      requires Here(c, t) && RedFocus(c, t, h) && !IsRedFrame(c)
      modifies this`shape, nodes
      ensures Here(Top, shape) && RedBlackRoot(shape) && Alike(shape, Plug(c, t))
    {
      AtPlug(Mem(), c, t, root);
      BlackenRoot(c, t, h);
      shape := Plug(c, t);
      SetColor(root, Black, Top, shape);
      shape := Paint(shape, Black);
    }

    method InsertFixup(start: Node<K, V>, ghost c0: Hole<K, V>, ghost t0: Shape<K, V>, ghost h0: nat)
      requires Here(c0, t0) && t0.Branch? && t0.node == start && RedFocus(c0, t0, h0)
      modifies this`root, this`shape, nodes
      ensures Here(Top, shape) && RedBlackRoot(shape) && Alike(shape, Plug(c0, t0))
    {
      var n := start;
      ghost var c, t, h := c0, t0, h0;
      Around(c, t);
      while n.parent != null && n.parent.color == Red
        invariant Here(c, t) && t.Branch? && t.node == n && RedFocus(c, t, h)
        invariant n in nodes && n.parent == Owner(c) && (c.Frame? ==> c.node in nodes && c.node.color == c.color)
        invariant Alike(Plug(c, t), Plug(c0, t0))
        decreases Depth(c)
      {
        AroundParent(c, t);
        if n.parent == n.parent.parent.left {
          n, c, t, h := InsertFixupUnderLeft(n, c, t, h);
        } else {
          n, c, t, h := InsertFixupUnderRight(n, c, t, h);
        }
        Around(c, t);
      }
      ColourRoot(c, t, h);
    }

    /** One comparison on the way down. */
    lemma Step(c: Hole<K, V>, t: Shape<K, V>, key: K)
      requires Balanced() && Here(c, t) && t.Branch? && Plug(c, t) == shape && Narrowed(cmp, c, key)
      ensures t.node in nodes && t.node.key == t.key && t.node.value == t.value
      ensures t.node.left == Root(t.left) && t.node.right == Root(t.right)
      ensures Here(GoLeft(c, t), t.left) && Plug(GoLeft(c, t), t.left) == shape
      ensures Here(GoRight(c, t), t.right) && Plug(GoRight(c, t), t.right) == shape
      ensures cmp(key, t.key) < 0 ==> Narrowed(cmp, GoLeft(c, t), key)
      ensures cmp(key, t.key) > 0 ==> Narrowed(cmp, GoRight(c, t), key)
      ensures cmp(key, t.key) == 0 ==> FoundAt(c, t, key)
    {
      Around(c, t);
      AtChildren(Mem(), c, t, root);
      InOrderOfPlug(c, t);
      SortedMiddle(cmp, Before(c), InOrder(t), After(c));
      Narrow(cmp, c, t, key);
    }

    /** The position holds the key, and both sides of it are strictly smaller and larger. */
    ghost predicate FoundAt(c: Hole<K, V>, t: Shape<K, V>, key: K)
      reads this`shape
    {
      && t.Branch? && Plug(c, t) == shape && cmp(key, t.key) == 0
      && Below(cmp, Before(c) + InOrder(t.left), key) && Above(cmp, InOrder(t.right) + After(c), key)
    }

    /** What `FoundAt` says about the abstract map. */
    lemma FoundEntry(c: Hole<K, V>, t: Shape<K, V>, key: K)
      requires TotalPreorder(cmp) && FoundAt(c, t, key)
      ensures Lookup(cmp, Contents(), key) == Some(t.value)
      ensures Erase(cmp, Contents(), key) == (Before(c) + InOrder(t.left)) + (InOrder(t.right) + After(c))
    {
      AroundEntry(c, t);
      LookupAt(cmp, Before(c) + InOrder(t.left), [(t.key, t.value)], InOrder(t.right) + After(c), key);
    }

    lemma UpdatedEntry(c: Hole<K, V>, t: Shape<K, V>, key: K, value: V)
      requires TotalPreorder(cmp) && FoundAt(c, t, key)
      ensures Upsert(cmp, Contents(), key, value) == InOrder(Plug(c, t.(value := value)))
    {
      AroundEntry(c, t);
      AroundEntry(c, t.(value := value));
      UpsertAt(cmp, Before(c) + InOrder(t.left), [(t.key, t.value)], InOrder(t.right) + After(c), key, value);
    }

    /** The search fell off the tree: the key is absent and this is where it belongs. */
    lemma NoEntry(c: Hole<K, V>, key: K)
      requires TotalPreorder(cmp) && Plug(c, Leaf) == shape && Narrowed(cmp, c, key)
      ensures Lookup(cmp, Contents(), key) == None
    {
      InOrderOfPlug(c, Leaf);
      LookupAt(cmp, Before(c), [], After(c), key);
    }

    lemma NewEntry(c: Hole<K, V>, t: Shape<K, V>, key: K, value: V)
      requires TotalPreorder(cmp) && Plug(c, Leaf) == shape && Narrowed(cmp, c, key)
      requires InOrder(t) == [(key, value)]
      ensures Upsert(cmp, Contents(), key, value) == InOrder(Plug(c, t))
    {
      InOrderOfPlug(c, Leaf);
      InOrderOfPlug(c, t);
      UpsertAt(cmp, Before(c), [], After(c), key, value);
    }

    /** What a finished search knows. */
    lemma SearchDone(c: Hole<K, V>, t: Shape<K, V>, key: K)
      requires Balanced() && Here(c, t) && Plug(c, t) == shape && Narrowed(cmp, c, key)
      requires t.Branch? ==> FoundAt(c, t, key)
      ensures t.Leaf? ==> Lookup(cmp, Contents(), key) == None
      ensures t.Branch? ==> t.node in nodes && Lookup(cmp, Contents(), key) == Some(t.node.value)
    {
      if t.Leaf? {
        NoEntry(c, key);
      } else {
        FoundEntry(c, t, key);
        Around(c, t);
      }
    }

    /** A search that ends at a position of a valid map has made at most `2 log2(size + 1)` comparisons: one at every
        node above the position and one at the node there, if any (see `FindNode`). */
    lemma LogarithmicSearch(c: Hole<K, V>, t: Shape<K, V>)
      requires Valid() && Plug(c, t) == shape
      ensures Pow2(Comparisons(c, t)) <= (size + 1) * (size + 1)
    {
      HeightOfPlug(c, t);
      LogarithmicHeight(shape);
      Pow2Grows(Comparisons(c, t), Height(shape));
    }

    /** `findNode`, counting its comparisons. */
    method FindNode(key: K) returns (n: Node?<K, V>, ghost c: Hole<K, V>, ghost t: Shape<K, V>, ghost steps: nat)
      requires Valid()
      ensures n == Root(t) && Here(c, t)
      ensures if n == null then Lookup(cmp, Contents(), key) == None
              else FoundAt(c, t, key) && n in nodes && Lookup(cmp, Contents(), key) == Some(n.value)
      ensures Plug(c, t) == shape && steps == Comparisons(c, t)
    {
      n := root;
      c, t, steps := Top, shape, 0;
      while n != null
        invariant Here(c, t) && n == Root(t) && Plug(c, t) == shape && Narrowed(cmp, c, key)
        invariant steps == Depth(c)
        decreases t
      {
        Step(c, t, key);
        var r := cmp(key, n.key);
        steps := steps + 1;
        if r < 0 {
          n := n.left;
          c, t := GoLeft(c, t), t.left;
        } else if r > 0 {
          n := n.right;
          c, t := GoRight(c, t), t.right;
        } else {
          break;
        }
      }
      SearchDone(c, t, key);
    }

    method Get(key: K) returns (r: Option<V>)
      requires Valid()
      ensures r == Lookup(cmp, Contents(), key)
    {
      var n, _, _, _ := FindNode(key);
      if n == null {
        return None;
      }
      r := Some(n.value);
    }

    /** A node that is not in the tree yet is hung into the empty position. */
    method AttachNode(parent: Node<K, V>, newNode: Node<K, V>, asLeft: bool, ghost c: Hole<K, V>)
      requires Here(c, Leaf) && c.Frame? && c.node == parent && asLeft == c.side.OnLeft?
      requires newNode !in nodes && newNode.color == Red && newNode.parent == parent
      requires newNode.left == null && newNode.right == null
      modifies this`nodes, parent`left, parent`right
      ensures nodes == old(nodes) + {newNode}
      ensures Here(c, Branch(newNode, Red, Leaf, newNode.key, newNode.value, Leaf))
    {
      ghost var m := Mem();
      AttachAt(m, c, root, newNode, newNode.key, newNode.value);
      if asLeft {
        parent.left := newNode;
      } else {
        parent.right := newNode;
      }
      nodes := nodes + {newNode};
      assert Mem() == Attach(m, parent, c.side, newNode, newNode.key, newNode.value);
    }

    method SetEntry(n: Node<K, V>, key: K, value: V, ghost c: Hole<K, V>, ghost t: Shape<K, V>)
      requires Here(c, t) && t.Branch? && t.node == n
      modifies n`key, n`value
      ensures Here(c, t.(key := key, value := value))
    {
      ReplaceEntryAt(Mem(), c, t, root, key, value);
      ghost var m := Mem();
      n.key := key;
      n.value := value;
      assert Mem() == m[n := m[n].(key := key, value := value)];
    }

    /** What the whole tree is when the value at a found position is replaced. */
    lemma UpdatedTree(c: Hole<K, V>, t: Shape<K, V>, key: K, value: V)
      requires Balanced() && FoundAt(c, t, key)
      ensures var s := Plug(c, t.(value := value));
        && Nodes(s) == nodes && RedBlackRoot(s) && Sorted(cmp, InOrder(s)) && |InOrder(s)| == size
        && InOrder(s) == Upsert(cmp, Contents(), key, value)
    {
      UpdatedEntry(c, t, key, value);
      FoundEntry(c, t, key);
      UpsertIsMapUpdate(cmp, Contents(), key, value, key);
      var h := RedBlackUnplug(c, t);
      RedBlackOfPlug(c, t.(value := value), h);
      NodesOfPlug(c, t);
      NodesOfPlug(c, t.(value := value));
    }

    /** The key exists: only the value of its node changes. */
    method UpdateValue(n: Node<K, V>, key: K, value: V, ghost c: Hole<K, V>, ghost t: Shape<K, V>)
      requires Valid() && Here(c, t) && FoundAt(c, t, key) && t.node == n
      modifies this`shape, n`value
      ensures Valid() && nodes == old(nodes)
      ensures Contents() == Upsert(cmp, old(Contents()), key, value)
    {
      UpdatedTree(c, t, key, value);
      SetValue(n, value, c, t);
      AtPlug(Mem(), c, t.(value := value), root);
      shape := Plug(c, t.(value := value));
    }

    method SetValue(n: Node<K, V>, value: V, ghost c: Hole<K, V>, ghost t: Shape<K, V>)
      requires Here(c, t) && t.Branch? && t.node == n
      modifies n`value
      ensures Here(c, t.(value := value))
    {
      ReplaceEntryAt(Mem(), c, t, root, t.key, value);
      ghost var m := Mem();
      n.value := value;
      assert Mem() == m[n := m[n].(key := t.key, value := value)];
    }

    method PutFirst(key: K, value: V)
      requires Valid() && root == null
      modifies this
      ensures Valid() && fresh(nodes - old(nodes))
      ensures Contents() == Upsert(cmp, old(Contents()), key, value)
    {
      var n := new Node(key, value, Black, null);
      root, size := n, 1;
      shape, nodes := Branch(n, Black, Leaf, key, value, Leaf), {n};
      assert Linked(Mem(), shape, null) && Apart(shape);
      assert RedBlack(shape, 1);
    }

    /** What the whole tree is, before repair, when a new red node stands at a missing key's position. */
    lemma ExtendedTree(c: Hole<K, V>, t: Shape<K, V>, key: K, value: V) returns (h: nat)
      requires Balanced() && Plug(c, Leaf) == shape && Narrowed(cmp, c, key) && c.Frame?
      requires t.Branch? && t == Branch(t.node, Red, Leaf, key, value, Leaf)
      ensures RedFocus(c, t, h) && Nodes(Plug(c, t)) == nodes + {t.node}
    {
      h := RedBlackUnplug(c, Leaf);
      NodesOfPlug(c, Leaf);
      NodesOfPlug(c, t);
      assert Nodes(t) == {t.node};
    }

    lemma ExtendedContents(c: Hole<K, V>, t: Shape<K, V>, key: K, value: V)
      requires Balanced() && Plug(c, Leaf) == shape && Narrowed(cmp, c, key)
      requires InOrder(t) == [(key, value)]
      ensures var s := InOrder(Plug(c, t));
        s == Upsert(cmp, Contents(), key, value) && Sorted(cmp, s) && |s| == size + 1
    {
      NoEntry(c, key);
      NewEntry(c, t, key, value);
      UpsertIsMapUpdate(cmp, Contents(), key, value, key);
    }

    /** A missing key: a new red node below `parent`, and the repair. */
    method PutNew(parent: Node<K, V>, key: K, value: V, ghost c: Hole<K, V>)
      requires Balanced() && Here(c, Leaf) && c.Frame? && c.node == parent && parent in nodes
      requires Plug(c, Leaf) == shape && Narrowed(cmp, c, key)
      requires cmp(key, parent.key) < 0 <==> c.side.OnLeft?
      modifies this, nodes
      ensures Valid() && fresh(nodes - old(nodes))
      ensures Contents() == Upsert(cmp, old(Contents()), key, value)
    {
      ghost var t;
      ghost var h;
      var newNode;
      newNode, t, h := HangNode(parent, key, value, c);
      size := size + 1;
      Rebalance(newNode, c, t, h);
    }

    /** The repair after a new node, seen from the whole map. */
    method Rebalance(n: Node<K, V>, ghost c: Hole<K, V>, ghost t: Shape<K, V>, ghost h: nat)
      requires TotalPreorder(cmp) && Here(c, t) && t.Branch? && t.node == n && RedFocus(c, t, h)
      requires Nodes(Plug(c, t)) == nodes && Sorted(cmp, InOrder(Plug(c, t))) && size == |InOrder(Plug(c, t))|
      modifies this`root, this`shape, nodes
      ensures Valid() && Contents() == InOrder(Plug(c, t))
    {
      InsertFixup(n, c, t, h);
      Repaired(Plug(c, t));
    }

    /** A repaired tree with the entries and nodes of `t` is a valid map with those entries. */
    lemma Repaired(t: Shape<K, V>)
      requires TotalPreorder(cmp) && Here(Top, shape) && RedBlackRoot(shape) && Alike(shape, t)
      requires Nodes(t) == nodes && Sorted(cmp, InOrder(t)) && size == |InOrder(t)|
      ensures Valid() && Contents() == InOrder(t)
    {
    }

    method HangNode(parent: Node<K, V>, key: K, value: V, ghost c: Hole<K, V>)
      returns (newNode: Node<K, V>, ghost t: Shape<K, V>, ghost h: nat)
      requires Balanced() && Here(c, Leaf) && c.Frame? && c.node == parent && parent in nodes
      requires Plug(c, Leaf) == shape && Narrowed(cmp, c, key)
      requires cmp(key, parent.key) < 0 <==> c.side.OnLeft?
      modifies this`nodes, parent`left, parent`right
      ensures Here(c, t) && t == Branch(newNode, Red, Leaf, key, value, Leaf) && RedFocus(c, t, h)
      ensures fresh(newNode) && nodes == old(nodes) + {newNode} && Nodes(Plug(c, t)) == nodes
      ensures var s := InOrder(Plug(c, t));
        s == Upsert(cmp, Contents(), key, value) && Sorted(cmp, s) && |s| == size + 1
    {
      newNode := new Node(key, value, Red, parent);
      t := Branch(newNode, Red, Leaf, key, value, Leaf);
      h := ExtendedTree(c, t, key, value);
      ExtendedContents(c, t, key, value);
      AttachNode(parent, newNode, cmp(key, parent.key) < 0, c);
    }

    method Put(key: K, value: V)
      requires Valid()
      modifies this, nodes
      ensures Valid() && fresh(nodes - old(nodes))
      ensures Contents() == Upsert(cmp, old(Contents()), key, value)
    {
      if root == null {
        PutFirst(key, value);
        return;
      }
      var parent: Node?<K, V> := null;
      var current := root;
      ghost var c: Hole<K, V>, t := Top, shape;
      while current != null
        invariant Here(c, t) && current == Root(t) && Plug(c, t) == shape && Narrowed(cmp, c, key)
        invariant parent == Owner(c) && (current == null ==> parent != null)
        invariant c.Frame? ==> c.node in nodes && (cmp(key, c.node.key) < 0 <==> c.side.OnLeft?)
        modifies {}
        decreases t
      {
        Step(c, t, key);
        parent := current;
        var r := cmp(key, current.key);
        if r < 0 {
          current := current.left;
          c, t := GoLeft(c, t), t.left;
        } else if r > 0 {
          current := current.right;
          c, t := GoRight(c, t), t.right;
        } else {
          break;
        }
      }
      if current != null {
        UpdateValue(current, key, value, c, t);
      } else {
        PutNew(parent, key, value, c);
      }
    }

    /** The children of the sibling. */
    lemma Nephews(c: Hole<K, V>, t: Shape<K, V>)
      requires Here(c, t) && c.Frame? && c.sibling.Branch?
      ensures var s := c.sibling;
        && s.node in nodes && s.node.color == s.color && s.node.left == Root(s.left) && s.node.right == Root(s.right)
        && (s.left.Branch? ==> s.left.node in nodes && s.left.node.color == s.left.color)
        && (s.right.Branch? ==> s.right.node in nodes && s.right.node.color == s.right.color)
    {
      assert Linked(Mem(), c.sibling, c.node);
      assert c.sibling.left.Branch? ==> Linked(Mem(), c.sibling.left, c.sibling.node);
      assert c.sibling.right.Branch? ==> Linked(Mem(), c.sibling.right, c.sibling.node);
    }

    /** Colouring a child of the sibling. */
    method SetNephewColor(x: Node<K, V>, color: Color, ghost side: Side, ghost c: Hole<K, V>, ghost t: Shape<K, V>)
      requires Here(c, t) && c.Frame? && c.sibling.Branch?
      requires if side.OnLeft? then c.sibling.left.Branch? && c.sibling.left.node == x
               else c.sibling.right.Branch? && c.sibling.right.node == x
      modifies x`color
      ensures Here(c.(sibling := PaintChild(c.sibling, side, color)), t)
    {
      ghost var sib := Sibling(c, t);
      ghost var s' := PaintChild(c.sibling, side, color);
      AtFill(Mem(), c, t, root);
      AtFill(Mem(), sib, c.sibling, root);
      AtChildren(Mem(), sib, c.sibling, root);
      SetColor(x, color, if side.OnLeft? then GoLeft(sib, c.sibling) else GoRight(sib, c.sibling),
               if side.OnLeft? then c.sibling.left else c.sibling.right);
      AtChildren(Mem(), sib, s', root);
      AtFill(Mem(), sib, s', root);
      AtFill(Mem(), c.(sibling := s'), t, root);
    }

    /** Red sibling of a left child: it turns black, the parent red, and the parent is rotated. */
    method LowerLeft(parent: Node<K, V>, sibling: Node<K, V>, ghost c: Hole<K, V>, ghost t: Shape<K, V>)
      requires Here(c, t) && c.Frame? && c.side.OnLeft? && c.node == parent
      requires c.sibling.Branch? && c.sibling.node == sibling
      modifies this`root, nodes
      ensures Here(Lowered(c), t)
    {
      Around(c, t);
      SetSiblingColor(sibling, Black, c, t);
      ghost var c' := c.(sibling := Paint(c.sibling, Black));
      SetOwnerColor(parent, Red, c', t);
      AtFill(Mem(), c'.(color := Red), t, root);
      RotateLeft(parent, c.up, Fill(c'.(color := Red), t));
      AtFill(Mem(), Lowered(c).up, Fill(Lowered(c), t), root);
      AtFill(Mem(), Lowered(c), t, root);
    }

    /** Near child of the sibling black, sibling red, and the sibling rotated away from the hole. */
    method SwingLeft(sibling: Node<K, V>, ghost c: Hole<K, V>, ghost t: Shape<K, V>)
      requires Here(c, t) && c.Frame? && c.side.OnLeft?
      requires c.sibling.Branch? && c.sibling.node == sibling && c.sibling.left.Branch?
      modifies this`root, nodes
      ensures Here(Swung(c), t)
    {
      Nephews(c, t);
      if sibling.left != null {
        SetNephewColor(sibling.left, Black, OnLeft, c, t);
      }
      ghost var c' := c.(sibling := PaintChild(c.sibling, OnLeft, Black));
      SetSiblingColor(sibling, Red, c', t);
      RotateSiblingRight(sibling, c'.(sibling := Paint(c'.sibling, Red)), t);
    }

    method RotateSiblingRight(sibling: Node<K, V>, ghost c: Hole<K, V>, ghost t: Shape<K, V>)
      requires Here(c, t) && c.Frame? && c.sibling.Branch? && c.sibling.node == sibling && c.sibling.left.Branch?
      modifies this`root, nodes
      ensures Here(c.(sibling := RedBlackTree.RotateRight(c.sibling)), t)
    {
      ghost var sib := Sibling(c, t);
      AtFill(Mem(), c, t, root);
      AtFill(Mem(), sib, c.sibling, root);
      RotateRight(sibling, sib, c.sibling);
      AtFill(Mem(), sib, RedBlackTree.RotateRight(c.sibling), root);
      AtFill(Mem(), c.(sibling := RedBlackTree.RotateRight(c.sibling)), t, root);
    }

    /** The sibling takes the parent's colour, the parent and the far child turn black, and the parent is rotated. */
    method FinishLeft(parent: Node<K, V>, sibling: Node<K, V>, ghost c: Hole<K, V>, ghost t: Shape<K, V>)
      requires Here(c, t) && c.Frame? && c.side.OnLeft? && c.node == parent
      requires c.sibling.Branch? && c.sibling.node == sibling && c.sibling.right.Branch?
      modifies this`root, nodes
      ensures Here(c.up, Finished(c, t))
    {
      Around(c, t);
      Nephews(c, t);
      SetSiblingColor(sibling, parent.color, c, t);
      ghost var c' := c.(sibling := Paint(c.sibling, c.color));
      SetOwnerColor(parent, Black, c', t);
      c' := c'.(color := Black);
      if sibling.right != null {
        SetNephewColor(sibling.right, Black, OnRight, c', t);
      }
      c' := c'.(sibling := PaintChild(c'.sibling, OnRight, Black));
      AtFill(Mem(), c', t, root);
      RotateLeft(parent, c.up, Fill(c', t));
    }


    /** Red sibling of a right child: it turns black, the parent red, and the parent is rotated. */
    method LowerRight(parent: Node<K, V>, sibling: Node<K, V>, ghost c: Hole<K, V>, ghost t: Shape<K, V>)
      requires Here(c, t) && c.Frame? && c.side.OnRight? && c.node == parent
      requires c.sibling.Branch? && c.sibling.node == sibling
      modifies this`root, nodes
      ensures Here(Lowered(c), t)
    {
      Around(c, t);
      SetSiblingColor(sibling, Black, c, t);
      ghost var c' := c.(sibling := Paint(c.sibling, Black));
      SetOwnerColor(parent, Red, c', t);
      AtFill(Mem(), c'.(color := Red), t, root);
      RotateRight(parent, c.up, Fill(c'.(color := Red), t));
      AtFill(Mem(), Lowered(c).up, Fill(Lowered(c), t), root);
      AtFill(Mem(), Lowered(c), t, root);
    }

    /** Near child of the sibling black, sibling red, and the sibling rotated away from the hole. */
    method SwingRight(sibling: Node<K, V>, ghost c: Hole<K, V>, ghost t: Shape<K, V>)
      requires Here(c, t) && c.Frame? && c.side.OnRight?
      requires c.sibling.Branch? && c.sibling.node == sibling && c.sibling.right.Branch?
      modifies this`root, nodes
      ensures Here(Swung(c), t)
    {
      Nephews(c, t);
      if sibling.right != null {
        SetNephewColor(sibling.right, Black, OnRight, c, t);
      }
      ghost var c' := c.(sibling := PaintChild(c.sibling, OnRight, Black));
      SetSiblingColor(sibling, Red, c', t);
      RotateSiblingLeft(sibling, c'.(sibling := Paint(c'.sibling, Red)), t);
    }

    method RotateSiblingLeft(sibling: Node<K, V>, ghost c: Hole<K, V>, ghost t: Shape<K, V>)
      requires Here(c, t) && c.Frame? && c.sibling.Branch? && c.sibling.node == sibling && c.sibling.right.Branch?
      modifies this`root, nodes
      ensures Here(c.(sibling := RedBlackTree.RotateLeft(c.sibling)), t)
    {
      ghost var sib := Sibling(c, t);
      AtFill(Mem(), c, t, root);
      AtFill(Mem(), sib, c.sibling, root);
      RotateLeft(sibling, sib, c.sibling);
      AtFill(Mem(), sib, RedBlackTree.RotateLeft(c.sibling), root);
      AtFill(Mem(), c.(sibling := RedBlackTree.RotateLeft(c.sibling)), t, root);
    }

    /** The sibling takes the parent's colour, the parent and the far child turn black, and the parent is rotated. */
    method FinishRight(parent: Node<K, V>, sibling: Node<K, V>, ghost c: Hole<K, V>, ghost t: Shape<K, V>)
      requires Here(c, t) && c.Frame? && c.side.OnRight? && c.node == parent
      requires c.sibling.Branch? && c.sibling.node == sibling && c.sibling.left.Branch?
      modifies this`root, nodes
      ensures Here(c.up, Finished(c, t))
    {
      Around(c, t);
      Nephews(c, t);
      SetSiblingColor(sibling, parent.color, c, t);
      ghost var c' := c.(sibling := Paint(c.sibling, c.color));
      SetOwnerColor(parent, Black, c', t);
      c' := c'.(color := Black);
      if sibling.left != null {
        SetNephewColor(sibling.left, Black, OnLeft, c', t);
      }
      c' := c'.(sibling := PaintChild(c'.sibling, OnLeft, Black));
      AtFill(Mem(), c', t, root);
      RotateRight(parent, c.up, Fill(c', t));
    }

    /** Black sibling with black children, on either side: the sibling turns red. */
    method MoveUp(parent: Node<K, V>, sibling: Node<K, V>, ghost c: Hole<K, V>, ghost t0: Shape<K, V>, ghost h0: nat)
      returns (ghost t: Shape<K, V>, ghost h: nat)
      requires Here(c, t0) && ShortFocus(c, t0, h0) && !IsRed(t0) && c.Frame? && c.node == parent
      requires c.sibling.Branch? && c.sibling.node == sibling && !IsRed(c.sibling)
      requires !IsRed(c.sibling.left) && !IsRed(c.sibling.right)
      modifies sibling`color
      ensures Here(c.up, t) && Root(t) == parent && Alike(t, Fill(c, t0))
      ensures ShortFocus(c.up, t, h) && (IsRed(t) <==> c.color == Red)
    {
      MoveUpStep(c, t0, h0);
      SetSiblingColor(sibling, Red, c, t0);
      ghost var c' := c.(sibling := Paint(c.sibling, Red));
      AtFill(Mem(), c', t0, root);
      t, h := Fill(c', t0), if c.color == Black then h0 + 1 else h0;
    }

    /** The repaired position, looked at from the root. */
    lemma WholeTree(c0: Hole<K, V>, t0: Shape<K, V>, before: Shape<K, V>) returns (c: Hole<K, V>, t: Shape<K, V>)
      requires Here(c0, t0) && RedBlackRoot(Plug(c0, t0)) && Alike(t0, before)
      ensures c == Top && t == Plug(c0, t0) && Here(c, t) && root == Root(t)
      ensures Settled(c, t) && Alike(t, Plug(c0, before))
    {
      c, t := Top, Plug(c0, t0);
      AtPlug(Mem(), c0, t0, root);
      AlikePlug(c0, t0, before);
      assert Blackened(t) == t;
    }

    /** Black sibling with a red child: at most two rotations and the repair is over. */
    method EndUnderLeft(parent: Node<K, V>, sibling0: Node<K, V>, ghost c0: Hole<K, V>, ghost t: Shape<K, V>,
        ghost h: nat)
      returns (ghost t': Shape<K, V>)
      requires Here(c0, t) && ShortFocus(c0, t, h) && !IsRed(t) && c0.Frame? && c0.side.OnLeft? && c0.node == parent
      requires c0.sibling.Branch? && c0.sibling.node == sibling0 && !IsRed(c0.sibling)
      requires IsRed(c0.sibling.left) || IsRed(c0.sibling.right)
      modifies this`root, nodes
      ensures Here(c0.up, t') && RedBlackRoot(Plug(c0.up, t')) && Alike(t', Fill(c0, t))
    {
      ghost var c := c0;
      var sibling := sibling0;
      Nephews(c, t);
      Around(c, t);
      if sibling.right == null || sibling.right.color == Black {
        SwingStep(c, t, h);
        SwingLeft(sibling, c, t);
        c := Swung(c);
        Around(c, t);
        sibling := parent.right;
      }
      FinishStep(c, t, h);
      FinishLeft(parent, sibling, c, t);
      t' := Finished(c, t);
    }

    /** The part of a round of `deleteFixup` under a left child in which the sibling is black. */
    method BlackSiblingUnderLeft(parent: Node<K, V>, sibling: Node<K, V>, ghost c0: Hole<K, V>,
        ghost t0: Shape<K, V>, ghost h0: nat)
      returns (n: Node?<K, V>, ghost c: Hole<K, V>, ghost t: Shape<K, V>, ghost h: nat, done: bool)
      requires Here(c0, t0) && ShortFocus(c0, t0, h0) && !IsRed(t0) && c0.Frame? && c0.side.OnLeft? && c0.node == parent
      requires c0.sibling.Branch? && c0.sibling.node == sibling && !IsRed(c0.sibling)
      modifies this`root, nodes
      ensures Here(c, t) && n == Root(t) && Alike(Plug(c, t), Plug(c0, t0))
      ensures if done then c.Top? && Settled(c, t)
              else ShortFocus(c, t, h) && c == c0.up && n == parent && (IsRed(t) <==> c0.color == Red)
    {
      Nephews(c0, t0);
      if (sibling.left == null || sibling.left.color == Black)
          && (sibling.right == null || sibling.right.color == Black) {
        t, h := MoveUp(parent, sibling, c0, t0, h0);
        AlikePlug(c0.up, t, Fill(c0, t0));
        n, c, done := parent, c0.up, false;
      } else {
        t := EndUnderLeft(parent, sibling, c0, t0, h0);
        h := h0;
        c, t := WholeTree(c0.up, t, Fill(c0, t0));
        n, done := root, true;
      }
    }

    /** One round of `deleteFixup` when the hole is a left child. */
    method DeleteFixupUnderLeft(parent: Node<K, V>, ghost c0: Hole<K, V>, ghost t0: Shape<K, V>, ghost h0: nat)
      returns (n: Node?<K, V>, ghost c: Hole<K, V>, ghost t: Shape<K, V>, ghost h: nat, done: bool)
      requires Here(c0, t0) && ShortFocus(c0, t0, h0) && !IsRed(t0) && c0.Frame? && c0.side.OnLeft? && c0.node == parent
      modifies this`root, nodes
      ensures Here(c, t) && n == Root(t) && Alike(Plug(c, t), Plug(c0, t0))
      ensures if done then c.Top? && Settled(c, t)
              else ShortFocus(c, t, h) && n != null && (Depth(c) < Depth(c0) || (Depth(c) == Depth(c0) && IsRed(t)))
    {
      SiblingExists(c0, t0, h0);
      c, t := c0, t0;
      Around(c, t);
      var sibling := parent.right;
      if sibling != null && sibling.color == Red {
        LowerStep(c, t, h0);
        LowerLeft(parent, sibling, c, t);
        c := Lowered(c);
        Around(c, t);
        sibling := parent.right;
      }
      n, c, t, h, done := BlackSiblingUnderLeft(parent, sibling, c, t, h0);
    }


    /** Black sibling with a red child: at most two rotations and the repair is over. */
    method EndUnderRight(parent: Node<K, V>, sibling0: Node<K, V>, ghost c0: Hole<K, V>, ghost t: Shape<K, V>,
        ghost h: nat)
      returns (ghost t': Shape<K, V>)
      requires Here(c0, t) && ShortFocus(c0, t, h) && !IsRed(t) && c0.Frame? && c0.side.OnRight? && c0.node == parent
      requires c0.sibling.Branch? && c0.sibling.node == sibling0 && !IsRed(c0.sibling)
      requires IsRed(c0.sibling.right) || IsRed(c0.sibling.left)
      modifies this`root, nodes
      ensures Here(c0.up, t') && RedBlackRoot(Plug(c0.up, t')) && Alike(t', Fill(c0, t))
    {
      ghost var c := c0;
      var sibling := sibling0;
      Nephews(c, t);
      Around(c, t);
      if sibling.left == null || sibling.left.color == Black {
        SwingStep(c, t, h);
        SwingRight(sibling, c, t);
        c := Swung(c);
        Around(c, t);
        sibling := parent.left;
      }
      FinishStep(c, t, h);
      FinishRight(parent, sibling, c, t);
      t' := Finished(c, t);
    }

    /** The part of a round of `deleteFixup` under a right child in which the sibling is black. */
    method BlackSiblingUnderRight(parent: Node<K, V>, sibling: Node<K, V>, ghost c0: Hole<K, V>,
        ghost t0: Shape<K, V>, ghost h0: nat)
      returns (n: Node?<K, V>, ghost c: Hole<K, V>, ghost t: Shape<K, V>, ghost h: nat, done: bool)
      requires Here(c0, t0) && ShortFocus(c0, t0, h0) && !IsRed(t0) && c0.Frame? && c0.side.OnRight?
          && c0.node == parent
      requires c0.sibling.Branch? && c0.sibling.node == sibling && !IsRed(c0.sibling)
      modifies this`root, nodes
      ensures Here(c, t) && n == Root(t) && Alike(Plug(c, t), Plug(c0, t0))
      ensures if done then c.Top? && Settled(c, t)
              else ShortFocus(c, t, h) && c == c0.up && n == parent && (IsRed(t) <==> c0.color == Red)
    {
      Nephews(c0, t0);
      if (sibling.right == null || sibling.right.color == Black)
          && (sibling.left == null || sibling.left.color == Black) {
        t, h := MoveUp(parent, sibling, c0, t0, h0);
        AlikePlug(c0.up, t, Fill(c0, t0));
        n, c, done := parent, c0.up, false;
      } else {
        t := EndUnderRight(parent, sibling, c0, t0, h0);
        h := h0;
        c, t := WholeTree(c0.up, t, Fill(c0, t0));
        n, done := root, true;
      }
    }

    /** One round of `deleteFixup` when the hole is a right child. */
    method DeleteFixupUnderRight(parent: Node<K, V>, ghost c0: Hole<K, V>, ghost t0: Shape<K, V>, ghost h0: nat)
      returns (n: Node?<K, V>, ghost c: Hole<K, V>, ghost t: Shape<K, V>, ghost h: nat, done: bool)
      requires Here(c0, t0) && ShortFocus(c0, t0, h0) && !IsRed(t0) && c0.Frame? && c0.side.OnRight?
          && c0.node == parent
      modifies this`root, nodes
      ensures Here(c, t) && n == Root(t) && Alike(Plug(c, t), Plug(c0, t0))
      ensures if done then c.Top? && Settled(c, t)
              else ShortFocus(c, t, h) && n != null && (Depth(c) < Depth(c0) || (Depth(c) == Depth(c0) && IsRed(t)))
    {
      SiblingExists(c0, t0, h0);
      c, t := c0, t0;
      Around(c, t);
      var sibling := parent.left;
      if sibling != null && sibling.color == Red {
        LowerStep(c, t, h0);
        LowerRight(parent, sibling, c, t);
        c := Lowered(c);
        Around(c, t);
        sibling := parent.left;
      }
      n, c, t, h, done := BlackSiblingUnderRight(parent, sibling, c, t, h0);
    }

    /** The last line of `deleteFixup`. */
    method SettleFocus(n: Node?<K, V>, ghost c: Hole<K, V>, ghost t: Shape<K, V>)
      requires Here(c, t) && n == Root(t) && Settled(c, t)
      modifies this`shape, (if n == null then {} else {n})`color
      ensures Here(Top, shape) && RedBlackRoot(shape) && Alike(shape, Plug(c, t))
    {
      if n != null {
        SetColor(n, Black, c, t);
      }
      AlikePlug(c, Blackened(t), t);
      AtPlug(Mem(), c, Blackened(t), root);
      shape := Plug(c, Blackened(t));
    }

    /** What the code sees at a position: the node's colour, whether it is the root, and on which side it hangs. */
    ghost predicate Located(n: Node?<K, V>, parent: Node?<K, V>, c: Hole<K, V>, t: Shape<K, V>)
      reads this`root, this`nodes, nodes
    {
      && parent == Owner(c) && (c.Top? <==> n == root)
      && (n != null ==> n in nodes && t.Branch? && n.color == t.color && n.parent == parent)
      && (c.Frame? ==> c.node in nodes && (c.node.left == n <==> c.side.OnLeft?))
    }

    lemma Locate(c: Hole<K, V>, t: Shape<K, V>, h: nat)
      requires Here(c, t) && (c.Top? || ShortFocus(c, t, h))
      ensures Located(Root(t), Owner(c), c, t)
    {
      if c.Frame? {
        SiblingExists(c, t, h);
      }
      Around(c, t);
      NotRoot(Mem(), c, t, root);
    }

    method DeleteFixup(n0: Node?<K, V>, parent0: Node?<K, V>, ghost c0: Hole<K, V>, ghost t0: Shape<K, V>,
        ghost h0: nat)
      requires Here(c0, t0) && n0 == Root(t0) && parent0 == Owner(c0) && ShortFocus(c0, t0, h0)
      modifies this`root, this`shape, nodes
      ensures Here(Top, shape) && RedBlackRoot(shape) && Alike(shape, Plug(c0, t0))
    {
      var n, parent := n0, parent0;
      ghost var c, t, h := c0, t0, h0;
      Locate(c, t, h);
      while (n == null || n.color == Black) && n != root
        invariant Here(c, t) && n == Root(t) && ShortFocus(c, t, h) && Located(n, parent, c, t)
        invariant Alike(Plug(c, t), Plug(c0, t0))
        decreases Depth(c), if IsRed(t) then 0 else 1
      {
        var done;
        if n == parent.left {
          n, c, t, h, done := DeleteFixupUnderLeft(parent, c, t, h);
        } else {
          n, c, t, h, done := DeleteFixupUnderRight(parent, c, t, h);
        }
        Locate(c, t, h);
        if done {
          break;
        }
        parent := n.parent;
      }
      if !Settled(c, t) {
        ShortDone(c, t, h);
      }
      SettleFocus(n, c, t);
    }

    lemma {:induction false} MinHere(c: Hole<K, V>, t: Shape<K, V>)
      requires Here(c, t) && t.Branch?
      ensures Here(MinContext(c, t), MinTree(t))
      decreases t
    {
      if t.left.Branch? {
        AtChildren(Mem(), c, t, root);
        MinHere(GoLeft(c, t), t.left);
      }
    }

    method Minimum(start: Node<K, V>, ghost c0: Hole<K, V>, ghost t0: Shape<K, V>) returns (n: Node<K, V>)
      requires Here(c0, t0) && t0.Branch? && t0.node == start
      ensures n == MinTree(t0).node && n in nodes && n.key == MinTree(t0).key && n.value == MinTree(t0).value
    {
      n := start;
      ghost var c, t := c0, t0;
      Around(c, t);
      while n.left != null
        invariant Here(c, t) && t.Branch? && t.node == n && MinTree(t) == MinTree(t0)
        invariant n.left == Root(t.left) && n in nodes && n.key == t.key && n.value == t.value
        decreases t
      {
        AtChildren(Mem(), c, t, root);
        n := n.left;
        c, t := GoLeft(c, t), t.left;
        Around(c, t);
      }
    }

    /** The pointer code that lets `child` take the place of `n` below `parent`. */
    method SpliceLinks(n: Node<K, V>, child: Node?<K, V>, parent: Node?<K, V>)
      requires n in nodes && n.parent == parent && child != n && parent != n && (parent != null ==> parent != child)
      requires child != null ==> child in nodes
      requires parent != null ==> parent in nodes && (parent.left == n <==> parent.right != n)
      modifies this`root, nodes
      ensures Mem() == Splice(old(Mem()), n, child, parent)
      ensures root == if parent == null then child else old(root)
    {
      if child != null {
        child.parent := parent;
      }
      if parent == null {
        root := child;
      } else if n == parent.left {
        parent.left := child;
      } else {
        parent.right := child;
      }
    }

    /** Takes out a node that has at most one child; the child moves up. */
    method SpliceOut(n: Node<K, V>, ghost c: Hole<K, V>, ghost t: Shape<K, V>)
        returns (child: Node?<K, V>, parent: Node?<K, V>)
      requires Here(c, t) && t.Branch? && t.node == n && (t.left.Leaf? || t.right.Leaf?)
      modifies this`root, nodes
      ensures Here(c, OnlyChild(t)) && child == Root(OnlyChild(t)) && parent == Owner(c)
    {
      ghost var m := Mem();
      SpliceAt(m, c, t, root);
      Around(c, t);
      child := if n.left != null then n.left else n.right;
      parent := n.parent;
      SpliceLinks(n, child, parent);
    }

    /** The entries that remain when the one at the position is gone. */
    ghost function Remaining(c: Hole<K, V>, t: Shape<K, V>): seq<(K, V)>
      requires t.Branch?
    {
      (Before(c) + InOrder(t.left)) + (InOrder(t.right) + After(c))
    }

    /** A node with at most one child is taken out and the tree repaired. */
    method DeleteOuter(n: Node<K, V>, ghost c: Hole<K, V>, ghost t: Shape<K, V>)
      requires Here(c, t) && t.Branch? && t.node == n && (t.left.Leaf? || t.right.Leaf?)
      requires RedBlackRoot(Plug(c, t))
      modifies this`root, this`shape, nodes
      ensures Here(Top, shape) && RedBlackRoot(shape) && Alike(shape, Plug(c, OnlyChild(t)))
    {
      ghost var h := RedBlackUnplug(c, t);
      SpliceStep(c, t, OnlyChild(t), h);
      Around(c, t);
      var color := n.color;
      var child, parent := SpliceOut(n, c, t);
      if color == Black {
        DeleteFixup(child, parent, c, OnlyChild(t), 0);
      } else {
        AtPlug(Mem(), c, OnlyChild(t), root);
        shape := Plug(c, OnlyChild(t));
      }
    }

    method DeleteNode(n0: Node<K, V>, ghost c0: Hole<K, V>, ghost t0: Shape<K, V>)
      requires Here(c0, t0) && t0.Branch? && t0.node == n0 && RedBlackRoot(Plug(c0, t0))
      modifies this`root, this`shape, nodes
      ensures Here(Top, shape) && RedBlackRoot(shape)
      ensures InOrder(shape) == Remaining(c0, t0) && Nodes(shape) <= Nodes(Plug(c0, t0))
    {
      var n := n0;
      ghost var c, t := c0, t0;
      Around(c, t);
      if n.left != null && n.right != null {
        n, c, t := MoveSuccessor(n, c, t);
      } else {
        OneChildLess(c, t);
      }
      DeleteOuter(n, c, t);
    }

    /** The entry of the in-order successor is copied into `n`; the successor is the node to take out. */
    method MoveSuccessor(n: Node<K, V>, ghost c0: Hole<K, V>, ghost t0: Shape<K, V>)
      returns (successor: Node<K, V>, ghost c: Hole<K, V>, ghost t: Shape<K, V>)
      requires Here(c0, t0) && t0.Branch? && t0.node == n && RedBlackRoot(Plug(c0, t0))
      requires t0.left.Branch? && t0.right.Branch?
      modifies n`key, n`value
      ensures Here(c, t) && t.Branch? && t.node == successor && t.left.Leaf? && RedBlackRoot(Plug(c, t))
      ensures InOrder(Plug(c, OnlyChild(t))) == Remaining(c0, t0)
      ensures Nodes(Plug(c, OnlyChild(t))) <= Nodes(Plug(c0, t0))
    {
      AtChildren(Mem(), c0, t0, root);
      Around(c0, t0);
      successor := Minimum(n.right, GoRight(c0, t0), t0.right);
      SetEntry(n, successor.key, successor.value, c0, t0);
      ghost var s := MinTree(t0.right);
      ghost var t' := t0.(key := s.key, value := s.value);
      AtChildren(Mem(), c0, t', root);
      MinHere(GoRight(c0, t'), t0.right);
      c, t := MinContext(GoRight(c0, t'), t0.right), s;
      SuccessorPosition(c0, t0);
      RenamedTree(c0, t0, t');
      OuterNodes(c, t);
    }

    /** Changing an entry changes neither the balance nor the nodes. */
    lemma RenamedTree(c: Hole<K, V>, t: Shape<K, V>, t': Shape<K, V>)
      requires t.Branch? && t'.Branch? && RedBlackRoot(Plug(c, t)) && t' == t.(key := t'.key, value := t'.value)
      ensures RedBlackRoot(Plug(c, t')) && Nodes(Plug(c, t')) == Nodes(Plug(c, t))
    {
      var h := RedBlackUnplug(c, t);
      RedBlackOfPlug(c, t', h);
      NodesOfPlug(c, t);
      NodesOfPlug(c, t');
    }

    lemma OuterNodes(c: Hole<K, V>, t: Shape<K, V>)
      requires t.Branch?
      ensures Nodes(Plug(c, OnlyChild(t))) <= Nodes(Plug(c, t))
    {
      NodesOfPlug(c, t);
      NodesOfPlug(c, OnlyChild(t));
    }

    lemma OneChildLess(c: Hole<K, V>, t: Shape<K, V>)
      requires t.Branch? && (t.left.Leaf? || t.right.Leaf?)
      ensures InOrder(Plug(c, OnlyChild(t))) == Remaining(c, t)
      ensures Nodes(Plug(c, OnlyChild(t))) <= Nodes(Plug(c, t))
    {
      InOrderOfPlug(c, OnlyChild(t));
      OuterNodes(c, t);
    }

    method Remove(key: K) returns (r: Option<V>)
      requires Valid()
      modifies this, nodes
      ensures Valid() && nodes <= old(nodes)
      ensures r == Lookup(cmp, old(Contents()), key)
      ensures Contents() == Erase(cmp, old(Contents()), key)
    {
      var n, c, t, _ := FindNode(key);
      ErasedContents(c, t, key);
      if n == null {
        return None;
      }
      var value := n.value;
      DeleteNode(n, c, t);
      size := size - 1;
      Forget();
      r := Some(value);
    }

    /** What erasing does, at the place where the search stopped. */
    lemma ErasedContents(c: Hole<K, V>, t: Shape<K, V>, key: K)
      requires Balanced() && (t.Branch? ==> FoundAt(c, t, key)) && (t.Leaf? ==> Lookup(cmp, Contents(), key) == None)
      ensures t.Leaf? ==> Erase(cmp, Contents(), key) == Contents()
      ensures t.Branch? ==> Remaining(c, t) == Erase(cmp, Contents(), key)
      ensures t.Branch? ==> Sorted(cmp, Remaining(c, t)) && |Remaining(c, t)| == size - 1
    {
      EraseIsMapRemoval(cmp, Contents(), key, key);
      if t.Branch? {
        FoundEntry(c, t, key);
      } else {
        EraseMissing(cmp, Contents(), key);
      }
    }

    /** The removed node is no longer part of the map. */
    ghost method Forget()
      requires Here(Top, shape) && Nodes(shape) <= nodes
      modifies this`nodes
      ensures Here(Top, shape) && nodes == Nodes(shape)
    {
      LinkedFrame(Mem(), Read(Nodes(shape)), shape, null);
      nodes := Nodes(shape);
    }

    method Clear()
      requires Valid()
      modifies this
      ensures Valid() && Contents() == [] && nodes == {}
    {
      root, size := null, 0;
      shape, nodes := Leaf, {};
      assert RedBlack(shape, 0);
    }

    /** `inorderTraversal`: `visit` sees the entries in key order until it says no. */
    method InorderTraversal(n: Node?<K, V>, visit: ((K, V)) -> bool, ghost c: Hole<K, V>, ghost t: Shape<K, V>)
      returns (visited: seq<(K, V)>, more: bool)
      requires Here(c, t) && n == Root(t)
      ensures Visited(visit, InOrder(t), visited, more)
      decreases t
    {
      if n == null {
        return [], true;
      }
      Around(c, t);
      AtChildren(Mem(), c, t, root);
      ghost var l, r := InOrder(t.left), InOrder(t.right);
      visited, more := InorderTraversal(n.left, visit, GoLeft(c, t), t.left);
      if !more {
        VisitStops(visit, l, (n.key, n.value), r, visited);
        return;
      }
      more := visit((n.key, n.value));
      if !more {
        VisitRefused(visit, l, (n.key, n.value), r, visited);
        return visited + [(n.key, n.value)], false;
      }
      var rest;
      rest, more := InorderTraversal(n.right, visit, GoRight(c, t), t.right);
      VisitGoesOn(visit, l, (n.key, n.value), r, visited, rest, more);
      visited := visited + [(n.key, n.value)] + rest;
    }

    method Entries() returns (entries: seq<(K, V)>)
      requires Valid()
      ensures entries == Contents()
    {
      var more;
      entries, more := InorderTraversal(root, (e: (K, V)) => true, Top, shape);
    }

    /** A map of its own: none of its nodes are shared with this one. */
    method Clone() returns (clone: TreeMap<K, V>)
      requires Valid()
      ensures fresh(clone) && clone.Valid() && fresh(clone.nodes)
      ensures clone.cmp == cmp && clone.Contents() == Contents()
    {
      clone := new TreeMap(cmp);
      var entries := Entries();
      clone.PutAll(entries);
    }

    method PutAll(entries: seq<(K, V)>)
      requires Valid() && Contents() == [] && Sorted(cmp, entries)
      modifies this, nodes
      ensures Valid() && fresh(nodes - old(nodes)) && Contents() == entries
    {
      var i := 0;
      while i < |entries|
        invariant 0 <= i <= |entries| && Valid() && fresh(nodes - old(nodes))
        invariant Contents() == entries[..i]
      {
        AppendIsUpsert(cmp, entries, i);
        Put(entries[i].0, entries[i].1);
        i := i + 1;
      }
    }
  }
}
