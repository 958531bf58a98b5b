/** The nodes of `util/collections/treemap/tree_map.go`: heap objects with parent pointers.  A set of nodes is read
    off the heap as a value, `Memory`, and all reasoning about trees is about that value. */
module TreeHeap {
  import opened RedBlackTree

  class Node<K, V> {
    var key: K
    var value: V
    var color: Color
    var left: Node?<K, V>
    var right: Node?<K, V>
    var parent: Node?<K, V>

    constructor (key: K, value: V, color: Color, parent: Node?<K, V>)
      ensures this.key == key && this.value == value && this.color == color && this.parent == parent
      ensures left == null && right == null
    {
      this.key, this.value, this.color, this.parent := key, value, color, parent;
      left, right := null, null;
    }
  }

  type Shape<K, V> = Tree<Node<K, V>, K, V>
  type Hole<K, V> = Context<Node<K, V>, K, V>

  /** The six fields of one node, as a value. */
  datatype Cell<K, V> =
    Cell(key: K, value: V, color: Color, left: Node?<K, V>, right: Node?<K, V>, parent: Node?<K, V>)

  type Memory<K, V> = map<Node<K, V>, Cell<K, V>>

  ghost function Read<K, V>(nodes: set<Node<K, V>>): Memory<K, V>
    reads nodes
  {
    map x | x in nodes :: Cell(x.key, x.value, x.color, x.left, x.right, x.parent)
  }

  ghost function Root<K, V>(t: Shape<K, V>): Node?<K, V> {
    if t.Leaf? then null else t.node
  }

  ghost function Owner<K, V>(c: Hole<K, V>): Node?<K, V> {
    if c.Top? then null else c.node
  }

  /** The memory stores `t` below `parent`: every field of every node is as `t` says. */
  ghost predicate Linked<K, V>(m: Memory<K, V>, t: Shape<K, V>, parent: Node?<K, V>) {
    match t
    case Leaf => true
    case Branch(n, color, l, k, v, r) =>
      n in m && m[n] == Cell(k, v, color, Root(l), Root(r), parent) && Linked(m, l, n) && Linked(m, r, n)
  }

  /** The memory stores `c` with `hole` in the place of the missing subtree and `root` at the top. */
  ghost predicate ContextLinked<K, V>(m: Memory<K, V>, c: Hole<K, V>, hole: Node?<K, V>, root: Node?<K, V>)
    decreases c
  {
    if c.Top? then hole == root
    else
      && c.node in m
      && m[c.node] == Cell(c.key, c.value, c.color,
                           if c.side.OnLeft? then hole else Root(c.sibling),
                           if c.side.OnLeft? then Root(c.sibling) else hole, Owner(c.up))
      && Linked(m, c.sibling, c.node) && ContextLinked(m, c.up, c.node, root)
  }

  ghost predicate Disjoint<K, V>(c: Hole<K, V>, t: Shape<K, V>) {
    Apart(t) && ContextApart(c) && Nodes(t) !! ContextNodes(c)
  }

  /** The memory below `root` is `Plug(c, t)`, looked at from the position of `t`. */
  ghost predicate At<K, V>(m: Memory<K, V>, c: Hole<K, V>, t: Shape<K, V>, root: Node?<K, V>) {
    Disjoint(c, t) && Linked(m, t, Owner(c)) && ContextLinked(m, c, Root(t), root)
  }

  lemma {:induction false} AtPlug<K, V>(m: Memory<K, V>, c: Hole<K, V>, t: Shape<K, V>, root: Node?<K, V>)
    ensures At(m, Top, Plug(c, t), root) <==> At(m, c, t, root)
    decreases c
  {
    if c.Frame? {
      AtPlug(m, c.up, Fill(c, t), root);
    }
  }

  ghost predicate Same<K, V>(m: Memory<K, V>, m': Memory<K, V>, nodes: set<Node<K, V>>) {
    forall x :: x in nodes && x in m ==> x in m' && m'[x] == m[x]
  }

  lemma {:induction false} LinkedFrame<K, V>(m: Memory<K, V>, m': Memory<K, V>, t: Shape<K, V>, p: Node?<K, V>)
    requires Linked(m, t, p) && Same(m, m', Nodes(t))
    ensures Linked(m', t, p)
    decreases t
  {
    if t.Branch? {
      LinkedFrame(m, m', t.left, t.node);
      LinkedFrame(m, m', t.right, t.node);
    }
  }

  lemma {:induction false} ContextFrame<K, V>(m: Memory<K, V>, m': Memory<K, V>, c: Hole<K, V>,
      hole: Node?<K, V>, root: Node?<K, V>)
    requires ContextLinked(m, c, hole, root) && Same(m, m', ContextNodes(c))
    ensures ContextLinked(m', c, hole, root)
    decreases c
  {
    if c.Frame? {
      LinkedFrame(m, m', c.sibling, c.node);
      ContextFrame(m, m', c.up, c.node, root);
    }
  }

  /** The parent field of a subtree's root is redirected. */
  ghost function Adopt<K, V>(m: Memory<K, V>, child: Node?<K, V>, parent: Node?<K, V>): Memory<K, V> {
    if child != null && child in m then m[child := m[child].(parent := parent)] else m
  }

  lemma AdoptLinked<K, V>(m: Memory<K, V>, t: Shape<K, V>, p: Node?<K, V>, q: Node?<K, V>)
    requires Apart(t) && Linked(m, t, p)
    ensures Linked(Adopt(m, Root(t), q), t, q)
  {
    if t.Branch? {
      LinkedFrame(m, Adopt(m, Root(t), q), t.left, t.node);
      LinkedFrame(m, Adopt(m, Root(t), q), t.right, t.node);
    }
  }

  /** The child field of `p` that points at `n` is redirected. */
  ghost function Rehang<K, V>(m: Memory<K, V>, p: Node?<K, V>, n: Node?<K, V>, r: Node?<K, V>): Memory<K, V> {
    if p == null || p !in m then m
    else if n == m[p].left then m[p := m[p].(left := r)]
    else m[p := m[p].(right := r)]
  }

  lemma RehangLinked<K, V>(m: Memory<K, V>, c: Hole<K, V>, n: Node<K, V>, r: Node?<K, V>, root: Node?<K, V>)
    requires ContextApart(c) && ContextLinked(m, c, n, root) && n !in ContextNodes(c)
    ensures ContextLinked(Rehang(m, Owner(c), n, r), c, r, if c.Top? then r else root)
  {
    if c.Frame? {
      assert c.sibling.Branch? ==> Root(c.sibling) in Nodes(c.sibling);
      LinkedFrame(m, Rehang(m, c.node, n, r), c.sibling, c.node);
      ContextFrame(m, Rehang(m, c.node, n, r), c.up, c.node, root);
    }
  }

  /** The nodes a left rotation around `n` touches are distinct and there. */
  ghost predicate CanTurnLeft<K, V>(m: Memory<K, V>, n: Node<K, V>) {
    && n in m && m[n].right != null && m[n].right in m && m[n].right != n
    && var r: Node<K, V>, p := m[n].right, m[n].parent;
      && var b := m[r].left;
      && (b != null ==> b in m && b != n && b != r && b != p)
      && (p != null ==> p in m && p != n && p != r && (m[p].left == n <==> m[p].right != n))
  }

  /** What a left rotation around `n` does to the memory. */
  ghost function TurnLeft<K, V>(m: Memory<K, V>, n: Node<K, V>): Memory<K, V>
    requires CanTurnLeft(m, n)
  {
    var r: Node<K, V> := m[n].right;
    var b, p := m[r].left, m[n].parent;
    var m1 := Rehang(Adopt(m, b, n), p, n, r);
    m1[r := m[r].(left := n, parent := p)][n := m[n].(right := b, parent := r)]
  }

  /** The nodes a right rotation around `n` touches are distinct and there. */
  ghost predicate CanTurnRight<K, V>(m: Memory<K, V>, n: Node<K, V>) {
    && n in m && m[n].left != null && m[n].left in m && m[n].left != n
    && var r: Node<K, V>, p := m[n].left, m[n].parent;
      && var b := m[r].right;
      && (b != null ==> b in m && b != n && b != r && b != p)
      && (p != null ==> p in m && p != n && p != r && (m[p].left == n <==> m[p].right != n))
  }

  /** What a right rotation around `n` does to the memory. */
  ghost function TurnRight<K, V>(m: Memory<K, V>, n: Node<K, V>): Memory<K, V>
    requires CanTurnRight(m, n)
  {
    var r: Node<K, V> := m[n].left;
    var b, p := m[r].right, m[n].parent;
    var m1 := Rehang(Adopt(m, b, n), p, n, r);
    m1[r := m[r].(right := n, parent := p)][n := m[n].(left := b, parent := r)]
  }

  /** The subtree part of a left rotation; `m` already hands `b` over to `n`. */
  lemma TurnLeftLinked<K, V>(m: Memory<K, V>, m': Memory<K, V>, t: Shape<K, V>, p: Node?<K, V>)
    requires t.Branch? && t.right.Branch? && Apart(t) && Linked(m, t, p)
    requires t.node in m && t.node in m'
        && m'[t.node] == m[t.node].(right := Root(t.right.left), parent := t.right.node)
    requires t.right.node in m && t.right.node in m'
        && m'[t.right.node] == m[t.right.node].(left := t.node, parent := p)
    requires t.right.left.Branch? ==>
      && Root(t.right.left) in m && Root(t.right.left) in m'
      && m'[Root(t.right.left)] == m[Root(t.right.left)].(parent := t.node)
    requires forall x :: x in Nodes(t) && x != t.node && x != t.right.node && x != Root(t.right.left) && x in m ==>
      x in m' && m'[x] == m[x]
    ensures Linked(m', RotateLeft(t), p)
  {
    var n, r, a, b, d := t.node, t.right.node, t.left, t.right.left, t.right.right;
    assert Linked(m, t.right, n) && Apart(t.right);
    var m1 := Adopt(m, Root(b), n);
    AdoptLinked(m, b, r, n);
    LinkedFrame(m, m', a, n);
    LinkedFrame(m1, m', b, n);
    LinkedFrame(m, m', d, r);
  }

  /** The subtree part of a right rotation; `m` already hands `b` over to `n`. */
  lemma TurnRightLinked<K, V>(m: Memory<K, V>, m': Memory<K, V>, t: Shape<K, V>, p: Node?<K, V>)
    requires t.Branch? && t.left.Branch? && Apart(t) && Linked(m, t, p)
    requires t.node in m && t.node in m' && m'[t.node] == m[t.node].(left := Root(t.left.right), parent := t.left.node)
    requires t.left.node in m && t.left.node in m' && m'[t.left.node] == m[t.left.node].(right := t.node, parent := p)
    requires t.left.right.Branch? ==>
      && Root(t.left.right) in m && Root(t.left.right) in m'
      && m'[Root(t.left.right)] == m[Root(t.left.right)].(parent := t.node)
    requires forall x :: x in Nodes(t) && x != t.node && x != t.left.node && x != Root(t.left.right) && x in m ==>
      x in m' && m'[x] == m[x]
    ensures Linked(m', RotateRight(t), p)
  {
    var n, r, a, b, d := t.node, t.left.node, t.right, t.left.right, t.left.left;
    assert Linked(m, t.left, n) && Apart(t.left);
    var m1 := Adopt(m, Root(b), n);
    AdoptLinked(m, b, r, n);
    LinkedFrame(m, m', a, n);
    LinkedFrame(m1, m', b, n);
    LinkedFrame(m, m', d, r);
  }

  /** A position's context is kept by changes inside the position, but for the one child field. */
  lemma TurnContext<K, V>(m: Memory<K, V>, m': Memory<K, V>, c: Hole<K, V>, n: Node<K, V>, r: Node?<K, V>,
      root: Node?<K, V>)
    requires ContextApart(c) && ContextLinked(m, c, n, root) && n !in ContextNodes(c)
    requires Same(Rehang(m, Owner(c), n, r), m', ContextNodes(c))
    ensures ContextLinked(m', c, r, if c.Top? then r else root)
  {
    RehangLinked(m, c, n, r, root);
    ContextFrame(Rehang(m, Owner(c), n, r), m', c, r, if c.Top? then r else root);
  }

  lemma TurnLeftAt<K, V>(m: Memory<K, V>, c: Hole<K, V>, t: Shape<K, V>, root: Node?<K, V>)
    requires t.Branch? && t.right.Branch? && At(m, c, t, root)
    ensures CanTurnLeft(m, t.node) && m[t.node].parent == Owner(c) && m[t.node].right == t.right.node
    ensures At(TurnLeft(m, t.node), c, RotateLeft(t), if c.Top? then t.right.node else root)
  {
    var n, r, b := t.node, t.right.node, t.right.left;
    assert Linked(m, t.right, n) && Apart(t.right) && n != r && Root(b) != n && Root(b) != r;
    RotateLeftApart(t);
    assert b.Branch? ==> Linked(m, b, r) && b.node in Nodes(t);
    assert n in Nodes(t) && r in Nodes(t);
    var m' := TurnLeft(m, n);
    TurnLeftLinked(m, m', t, Owner(c));
    TurnContext(m, m', c, n, r, root);
  }

  lemma TurnRightAt<K, V>(m: Memory<K, V>, c: Hole<K, V>, t: Shape<K, V>, root: Node?<K, V>)
    requires t.Branch? && t.left.Branch? && At(m, c, t, root)
    ensures CanTurnRight(m, t.node) && m[t.node].parent == Owner(c) && m[t.node].left == t.left.node
    ensures At(TurnRight(m, t.node), c, RotateRight(t), if c.Top? then t.left.node else root)
  {
    var n, r, b := t.node, t.left.node, t.left.right;
    assert Linked(m, t.left, n) && Apart(t.left) && n != r && Root(b) != n && Root(b) != r;
    RotateRightApart(t);
    assert b.Branch? ==> Linked(m, b, r) && b.node in Nodes(t);
    assert n in Nodes(t) && r in Nodes(t);
    var m' := TurnRight(m, n);
    TurnRightLinked(m, m', t, Owner(c));
    TurnContext(m, m', c, n, r, root);
  }

  /** Recolouring one node. */
  lemma PaintAt<K, V>(m: Memory<K, V>, c: Hole<K, V>, t: Shape<K, V>, root: Node?<K, V>, color: Color)
    requires t.Branch? && At(m, c, t, root)
    ensures t.node in m && At(m[t.node := m[t.node].(color := color)], c, Paint(t, color), root)
  {
    var m' := m[t.node := m[t.node].(color := color)];
    LinkedFrame(m, m', t.left, t.node);
    LinkedFrame(m, m', t.right, t.node);
    ContextFrame(m, m', c, t.node, root);
  }

  /** Moving the point of view one level up or down. */
  lemma AtFill<K, V>(m: Memory<K, V>, c: Hole<K, V>, t: Shape<K, V>, root: Node?<K, V>)
    requires c.Frame?
    ensures At(m, c, t, root) <==> At(m, c.up, Fill(c, t), root)
  {
  }

  lemma AtChildren<K, V>(m: Memory<K, V>, c: Hole<K, V>, t: Shape<K, V>, root: Node?<K, V>)
    requires t.Branch?
    ensures At(m, c, t, root) <==> At(m, GoLeft(c, t), t.left, root)
    ensures At(m, c, t, root) <==> At(m, GoRight(c, t), t.right, root)
  {
    AtFill(m, GoLeft(c, t), t.left, root);
    AtFill(m, GoRight(c, t), t.right, root);
  }

  /** Giving one node another key and value. */
  lemma ReplaceEntryAt<K, V>(m: Memory<K, V>, c: Hole<K, V>, t: Shape<K, V>, root: Node?<K, V>, key: K, value: V)
    requires t.Branch? && At(m, c, t, root)
    ensures t.node in m && At(m[t.node := m[t.node].(key := key, value := value)], c, t.(key := key, value := value),
        root)
  {
    var m' := m[t.node := m[t.node].(key := key, value := value)];
    LinkedFrame(m, m', t.left, t.node);
    LinkedFrame(m, m', t.right, t.node);
    ContextFrame(m, m', c, t.node, root);
  }

  /** Hanging a new childless red node into an empty position. */
  ghost function Attach<K, V>(m: Memory<K, V>, p: Node<K, V>, side: Side, x: Node<K, V>, key: K, value: V): Memory<K, V>
    requires p in m
  {
    m[p := if side.OnLeft? then m[p].(left := x) else m[p].(right := x)][x := Cell(key, value, Red, null, null, p)]
  }

  lemma AttachAt<K, V>(m: Memory<K, V>, c: Hole<K, V>, root: Node?<K, V>, x: Node<K, V>, key: K, value: V)
    requires At(m, c, Leaf, root) && c.Frame? && x !in m
    ensures c.node in m && x !in ContextNodes(c)
    ensures At(Attach(m, c.node, c.side, x, key, value), c, Branch(x, Red, Leaf, key, value, Leaf), root)
  {
    ContextInMemory(m, c, null, root);
    var m' := Attach(m, c.node, c.side, x, key, value);
    LinkedFrame(m, m', c.sibling, c.node);
    ContextFrame(m, m', c.up, c.node, root);
  }

  lemma {:induction false} InMemory<K, V>(m: Memory<K, V>, t: Shape<K, V>, p: Node?<K, V>)
    requires Linked(m, t, p)
    ensures Nodes(t) <= m.Keys
    decreases t
  {
    if t.Branch? {
      InMemory(m, t.left, t.node);
      InMemory(m, t.right, t.node);
    }
  }

  lemma {:induction false} ContextInMemory<K, V>(m: Memory<K, V>, c: Hole<K, V>, hole: Node?<K, V>, root: Node?<K, V>)
    requires ContextLinked(m, c, hole, root)
    ensures ContextNodes(c) <= m.Keys
    decreases c
  {
    if c.Frame? {
      InMemory(m, c.sibling, c.node);
      ContextInMemory(m, c.up, c.node, root);
    }
  }

  /** Taking out a node that has at most one child: the child takes its place. */
  ghost function OnlyChild<K, V>(t: Shape<K, V>): Shape<K, V>
    requires t.Branch?
  {
    if t.left.Branch? then t.left else t.right
  }

  ghost function Splice<K, V>(m: Memory<K, V>, n: Node<K, V>, child: Node?<K, V>, p: Node?<K, V>): Memory<K, V> {
    Rehang(Adopt(m, child, p), p, n, child)
  }

  lemma SpliceAt<K, V>(m: Memory<K, V>, c: Hole<K, V>, t: Shape<K, V>, root: Node?<K, V>)
    requires t.Branch? && (t.left.Leaf? || t.right.Leaf?) && At(m, c, t, root)
    ensures At(Splice(m, t.node, Root(OnlyChild(t)), Owner(c)), c, OnlyChild(t),
              if c.Top? then Root(OnlyChild(t)) else root)
  {
    var x := OnlyChild(t);
    var m1 := Adopt(m, Root(x), Owner(c));
    AdoptLinked(m, x, t.node, Owner(c));
    assert x.Branch? ==> x.node in Nodes(t);
    ContextFrame(m, m1, c, t.node, root);
    RehangLinked(m1, c, t.node, Root(x), root);
    LinkedFrame(m1, Splice(m, t.node, Root(x), Owner(c)), x, Owner(c));
  }

  /** Below a frame, the root is one of the context's nodes. */
  lemma {:induction false} RootInContext<K, V>(m: Memory<K, V>, c: Hole<K, V>, hole: Node?<K, V>, root: Node?<K, V>)
    requires ContextLinked(m, c, hole, root) && c.Frame?
    ensures root != null && root in ContextNodes(c)
    decreases c
  {
    if c.up.Frame? {
      RootInContext(m, c.up, c.node, root);
    }
  }

  lemma NotRoot<K, V>(m: Memory<K, V>, c: Hole<K, V>, t: Shape<K, V>, root: Node?<K, V>)
    requires At(m, c, t, root)
    ensures c.Top? <==> root == Root(t)
  {
    if c.Frame? {
      RootInContext(m, c, Root(t), root);
      assert t.Branch? ==> t.node in Nodes(t);
    }
  }
}
