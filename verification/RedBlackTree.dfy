/** The mathematical side of `util/collections/treemap/tree_map.go`: binary trees whose branches carry
    the identity of the heap node they stand for, the contexts in which a subtree can sit, and the
    red-black conditions of both.  Nothing here reads the heap. */
module RedBlackTree {
  datatype Color = Red | Black

  datatype Tree<N, K, V> =
    | Leaf
    | Branch(node: N, color: Color, left: Tree<N, K, V>, key: K, value: V, right: Tree<N, K, V>)

  datatype Side = OnLeft | OnRight

  /** A tree with a hole: the hole is the `side` child of `node`, whose other child is `sibling`. */
  datatype Context<N, K, V> =
    | Top
    | Frame(up: Context<N, K, V>, side: Side, node: N, color: Color, key: K, value: V, sibling: Tree<N, K, V>)

  function Fill<N, K, V>(f: Context<N, K, V>, t: Tree<N, K, V>): Tree<N, K, V>
    requires f.Frame?
  {
    match f.side
    case OnLeft => Branch(f.node, f.color, t, f.key, f.value, f.sibling)
    case OnRight => Branch(f.node, f.color, f.sibling, f.key, f.value, t)
  }

  function Plug<N, K, V>(c: Context<N, K, V>, t: Tree<N, K, V>): Tree<N, K, V>
    decreases c
  {
    if c.Top? then t else Plug(c.up, Fill(c, t))
  }

  function Depth<N, K, V>(c: Context<N, K, V>): nat
    decreases c
  {
    if c.Top? then 0 else Depth(c.up) + 1
  }

  // ----- In-order contents -----

  function InOrder<N, K, V>(t: Tree<N, K, V>): seq<(K, V)> {
    match t
    case Leaf => []
    case Branch(_, _, l, k, v, r) => InOrder(l) + [(k, v)] + InOrder(r)
  }

  /** The entries to the left of the hole, in order. */
  function Before<N, K, V>(c: Context<N, K, V>): seq<(K, V)>
    decreases c
  {
    if c.Top? then []
    else if c.side.OnLeft? then Before(c.up)
    else Before(c.up) + InOrder(c.sibling) + [(c.key, c.value)]
  }

  /** The entries to the right of the hole, in order. */
  function After<N, K, V>(c: Context<N, K, V>): seq<(K, V)>
    decreases c
  {
    if c.Top? then []
    else if c.side.OnRight? then After(c.up)
    else [(c.key, c.value)] + InOrder(c.sibling) + After(c.up)
  }

  lemma {:induction false} InOrderOfPlug<N, K, V>(c: Context<N, K, V>, t: Tree<N, K, V>)
    ensures InOrder(Plug(c, t)) == Before(c) + InOrder(t) + After(c)
    decreases c
  {
    if c.Frame? {
      InOrderOfPlug(c.up, Fill(c, t));
    }
  }

  // ----- Node identities -----

  ghost function Nodes<N, K, V>(t: Tree<N, K, V>): set<N> {
    match t
    case Leaf => {}
    case Branch(n, _, l, _, _, r) => {n} + Nodes(l) + Nodes(r)
  }

  ghost function ContextNodes<N, K, V>(c: Context<N, K, V>): set<N>
    decreases c
  {
    if c.Top? then {} else {c.node} + Nodes(c.sibling) + ContextNodes(c.up)
  }

  /** No node occurs twice: this is what makes the tree a tree and not a graph. */
  ghost predicate Apart<N, K, V>(t: Tree<N, K, V>) {
    match t
    case Leaf => true
    case Branch(n, _, l, _, _, r) =>
      n !in Nodes(l) && n !in Nodes(r) && Nodes(l) !! Nodes(r) && Apart(l) && Apart(r)
  }

  ghost predicate ContextApart<N, K, V>(c: Context<N, K, V>)
    decreases c
  {
    c.Top? ||
    (c.node !in Nodes(c.sibling) && c.node !in ContextNodes(c.up) &&
     Nodes(c.sibling) !! ContextNodes(c.up) && Apart(c.sibling) && ContextApart(c.up))
  }

  lemma {:induction false} NodesOfPlug<N, K, V>(c: Context<N, K, V>, t: Tree<N, K, V>)
    ensures Nodes(Plug(c, t)) == Nodes(t) + ContextNodes(c)
    ensures Apart(Plug(c, t)) <==> Apart(t) && ContextApart(c) && Nodes(t) !! ContextNodes(c)
    decreases c
  {
    if c.Frame? {
      NodesOfPlug(c.up, Fill(c, t));
    }
  }

  // ----- Red-black conditions -----

  predicate IsRed<N, K, V>(t: Tree<N, K, V>) {
    t.Branch? && t.color == Red
  }

  /** Every path from `t` down to a leaf crosses `h` black nodes and no red node has a red child. */
  ghost predicate RedBlack<N, K, V>(t: Tree<N, K, V>, h: nat) {
    match t
    case Leaf => h == 0
    case Branch(_, Red, l, _, _, r) => !IsRed(l) && !IsRed(r) && RedBlack(l, h) && RedBlack(r, h)
    case Branch(_, Black, l, _, _, r) => h > 0 && RedBlack(l, h - 1) && RedBlack(r, h - 1)
  }

  predicate IsRedFrame<N, K, V>(c: Context<N, K, V>) {
    c.Frame? && c.color == Red
  }

  /** Filling the hole with a tree of black height `h` whose root may stand under `c` gives a
      red-black tree with a black root. */
  ghost predicate RedBlackContext<N, K, V>(c: Context<N, K, V>, h: nat)
    decreases c
  {
    c.Top? ||
    (RedBlack(c.sibling, h) &&
     (c.color == Red ==> !IsRed(c.sibling) && c.up.Frame? && c.up.color == Black) &&
     RedBlackContext(c.up, if c.color == Black then h + 1 else h))
  }

  /** A whole map's tree: red-black with a black root. */
  ghost predicate RedBlackRoot<N, K, V>(t: Tree<N, K, V>) {
    !IsRed(t) && exists h: nat :: RedBlack(t, h)
  }

  lemma {:induction false} RedBlackOfPlug<N, K, V>(c: Context<N, K, V>, t: Tree<N, K, V>, h: nat)
    requires RedBlack(t, h) && RedBlackContext(c, h)
    requires IsRed(t) ==> c.Frame? && c.color == Black
    ensures RedBlackRoot(Plug(c, t))
    decreases c
  {
    if c.Frame? {
      RedBlackOfPlug(c.up, Fill(c, t), if c.color == Black then h + 1 else h);
    }
  }

  /** Conversely, every position inside a red-black tree has a red-black subtree and context. */
  lemma {:induction false} RedBlackUnplug<N, K, V>(c: Context<N, K, V>, t: Tree<N, K, V>) returns (h: nat)
    requires RedBlackRoot(Plug(c, t))
    ensures RedBlack(t, h) && RedBlackContext(c, h)
    ensures IsRed(t) ==> c.Frame? && c.color == Black
    decreases c
  {
    if c.Top? {
      h :| RedBlack(t, h);
    } else {
      h := RedBlackUnplug(c.up, Fill(c, t));
      h := if c.color == Black then h - 1 else h;
    }
  }

  function GoLeft<N, K, V>(c: Context<N, K, V>, t: Tree<N, K, V>): Context<N, K, V>
    requires t.Branch?
  {
    Frame(c, OnLeft, t.node, t.color, t.key, t.value, t.right)
  }

  function GoRight<N, K, V>(c: Context<N, K, V>, t: Tree<N, K, V>): Context<N, K, V>
    requires t.Branch?
  {
    Frame(c, OnRight, t.node, t.color, t.key, t.value, t.left)
  }

  /** The hole next door: looked at from the sibling of the tree in the hole. */
  function Sibling<N, K, V>(c: Context<N, K, V>, t: Tree<N, K, V>): Context<N, K, V>
    requires c.Frame?
  {
    c.(side := if c.side.OnLeft? then OnRight else OnLeft, sibling := t)
  }

  function Paint<N, K, V>(t: Tree<N, K, V>, color: Color): Tree<N, K, V>
    requires t.Branch?
  {
    t.(color := color)
  }

  // ----- Rotations -----

  function RotateLeft<N, K, V>(t: Tree<N, K, V>): Tree<N, K, V>
    requires t.Branch? && t.right.Branch?
  {
    t.right.(left := t.(right := t.right.left))
  }

  function RotateRight<N, K, V>(t: Tree<N, K, V>): Tree<N, K, V>
    requires t.Branch? && t.left.Branch?
  {
    t.left.(right := t.(left := t.left.right))
  }

  /** Rotations keep the contents and their order, and undo each other. */
  lemma RotationsKeepOrder<N, K, V>(t: Tree<N, K, V>)
    requires t.Branch?
    ensures t.right.Branch? ==> InOrder(RotateLeft(t)) == InOrder(t) && RotateRight(RotateLeft(t)) == t
    ensures t.left.Branch? ==> InOrder(RotateRight(t)) == InOrder(t) && RotateLeft(RotateRight(t)) == t
  {
    if t.right.Branch? {
      LeftKeepsOrder(t);
    }
    if t.left.Branch? {
      RightKeepsOrder(t);
    }
  }

  lemma LeftKeepsOrder<N, K, V>(t: Tree<N, K, V>)
    requires t.Branch? && t.right.Branch?
    ensures InOrder(RotateLeft(t)) == InOrder(t)
  {
    var r := t.right;
    Reassociate(InOrder(t.left), [(t.key, t.value)], InOrder(r.left), [(r.key, r.value)], InOrder(r.right));
  }

  lemma RightKeepsOrder<N, K, V>(t: Tree<N, K, V>)
    requires t.Branch? && t.left.Branch?
    ensures InOrder(RotateRight(t)) == InOrder(t)
  {
    var l := t.left;
    Reassociate(InOrder(l.left), [(l.key, l.value)], InOrder(l.right), [(t.key, t.value)], InOrder(t.right));
  }

  lemma Reassociate<T>(a: seq<T>, x: seq<T>, b: seq<T>, y: seq<T>, c: seq<T>)
    ensures (a + x + b) + y + c == a + x + (b + y + c)
  {
  }

  /** Rotations move no node in or out of the tree and never use one twice. */
  lemma RotateLeftApart<N, K, V>(t: Tree<N, K, V>)
    requires t.Branch? && t.right.Branch? && Apart(t)
    ensures Nodes(RotateLeft(t)) == Nodes(t) && Apart(RotateLeft(t))
  {
    var a, r := t.left, t.right;
    var l := t.(right := r.left);
    assert Nodes(t) == {t.node} + Nodes(a) + Nodes(r);
    assert Nodes(r) == {r.node} + Nodes(r.left) + Nodes(r.right);
    assert Nodes(l) == {t.node} + Nodes(a) + Nodes(r.left);
    assert RotateLeft(t) == r.(left := l);
    assert Nodes(RotateLeft(t)) == {r.node} + Nodes(l) + Nodes(r.right);
    assert Apart(l);
  }

  lemma RotateRightApart<N, K, V>(t: Tree<N, K, V>)
    requires t.Branch? && t.left.Branch? && Apart(t)
    ensures Nodes(RotateRight(t)) == Nodes(t) && Apart(RotateRight(t))
  {
    var l, d := t.left, t.right;
    var r := t.(left := l.right);
    assert Nodes(t) == {t.node} + Nodes(l) + Nodes(d);
    assert Nodes(l) == {l.node} + Nodes(l.left) + Nodes(l.right);
    assert Nodes(r) == {t.node} + Nodes(l.right) + Nodes(d);
    assert RotateRight(t) == l.(right := r);
    assert Nodes(RotateRight(t)) == {l.node} + Nodes(l.left) + Nodes(r);
    assert Apart(r);
  }
}
