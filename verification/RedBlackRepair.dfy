/** What the branches of the two fixup loops do to a tree, and why that repairs it. */
module RedBlackRepair {
  import opened RedBlackTree

  /** Same entries in the same order on the same nodes. */
  ghost predicate Alike<N, K, V>(t: Tree<N, K, V>, t': Tree<N, K, V>) {
    InOrder(t) == InOrder(t') && Nodes(t) == Nodes(t')
  }

  lemma AlikePlug<N, K, V>(c: Context<N, K, V>, t: Tree<N, K, V>, t': Tree<N, K, V>)
    requires Alike(t, t')
    ensures Alike(Plug(c, t), Plug(c, t'))
  {
    InOrderOfPlug(c, t);
    InOrderOfPlug(c, t');
    NodesOfPlug(c, t);
    NodesOfPlug(c, t');
  }

  // ----- Insertion -----

  /** A red node `t` whose subtree is in order and whose only possible fault is a red parent. */
  ghost predicate RedFocus<N, K, V>(c: Context<N, K, V>, t: Tree<N, K, V>, h: nat) {
    IsRed(t) && RedBlack(t, h) && RedBlackContext(c, h)
  }

  /** Parent and uncle turn black, the grandparent turns red. */
  function Recoloured<N, K, V>(c: Context<N, K, V>, t: Tree<N, K, V>): Tree<N, K, V>
    requires c.Frame? && c.up.Frame? && c.up.sibling.Branch?
  {
    Paint(Fill(c.up.(sibling := Paint(c.up.sibling, Black)), Paint(Fill(c, t), Black)), Red)
  }

  lemma RecolourStep<N, K, V>(c: Context<N, K, V>, t: Tree<N, K, V>, h: nat)
    requires RedFocus(c, t, h) && IsRedFrame(c) && c.up.Frame? && IsRed(c.up.sibling)
    ensures RedFocus(c.up.up, Recoloured(c, t), h + 1)
    ensures Alike(Recoloured(c, t), Fill(c.up, Fill(c, t)))
  {
    var u := c.up;
    assert RedBlackContext(u, h) && RedBlackContext(u.up, h + 1);
    assert RedBlack(Paint(Fill(c, t), Black), h + 1);
    assert RedBlack(Paint(u.sibling, Black), h + 1);
    assert RedBlack(Recoloured(c, t), h + 1);
    assert InOrder(Paint(Fill(c, t), Black)) == InOrder(Fill(c, t));
    assert InOrder(Paint(u.sibling, Black)) == InOrder(u.sibling);
  }

  function BeforeRotation<N, K, V>(c: Context<N, K, V>, t: Tree<N, K, V>): Tree<N, K, V>
    requires c.Frame? && c.up.Frame?
  {
    Paint(Fill(c.up, Paint(Fill(c, t), Black)), Red)
  }

  /** `t` is the outer grandchild: parent turns black, grandparent red, and the grandparent is rotated. */
  function Rotated<N, K, V>(c: Context<N, K, V>, t: Tree<N, K, V>): Tree<N, K, V>
    requires c.Frame? && c.up.Frame? && c.side == c.up.side
  {
    if c.side.OnLeft? then RotateRight(BeforeRotation(c, t)) else RotateLeft(BeforeRotation(c, t))
  }

  /** Where `t` sits after the rotation. */
  function RotatedHole<N, K, V>(c: Context<N, K, V>, t: Tree<N, K, V>): Context<N, K, V>
    requires c.Frame? && c.up.Frame? && c.side == c.up.side
  {
    if c.side.OnLeft? then GoLeft(c.up.up, Rotated(c, t)) else GoRight(c.up.up, Rotated(c, t))
  }

  lemma RotateStep<N, K, V>(c: Context<N, K, V>, t: Tree<N, K, V>, h: nat)
    requires RedFocus(c, t, h) && IsRedFrame(c) && c.up.Frame? && c.side == c.up.side && !IsRed(c.up.sibling)
    ensures RedFocus(RotatedHole(c, t), t, h) && RotatedHole(c, t).color == Black
    ensures Fill(RotatedHole(c, t), t) == Rotated(c, t)
    ensures Alike(Rotated(c, t), Fill(c.up, Fill(c, t)))
  {
    RotationsKeepOrder(BeforeRotation(c, t));
    var u := c.up;
    assert RedBlackContext(u, h) && RedBlackContext(u.up, h + 1);
    var g' := RotatedHole(c, t).sibling;
    assert g'.Branch? && g'.color == Red && RedBlack(g', h);
  }

  /** `t` is the inner grandchild: rotating the parent makes the parent an outer grandchild. */
  function Straightened<N, K, V>(c: Context<N, K, V>, t: Tree<N, K, V>): Tree<N, K, V>
    requires c.Frame? && t.Branch?
  {
    if c.side.OnRight? then RotateLeft(Fill(c, t)) else RotateRight(Fill(c, t))
  }

  lemma StraightenStep<N, K, V>(c: Context<N, K, V>, t: Tree<N, K, V>, h: nat)
    requires RedFocus(c, t, h) && IsRedFrame(c) && c.up.Frame? && c.side != c.up.side
    ensures
      var s := Straightened(c, t);
      var c' := if c.side.OnRight? then GoLeft(c.up, s) else GoRight(c.up, s);
      var t' := if c.side.OnRight? then s.left else s.right;
      && RedFocus(c', t', h) && IsRedFrame(c') && c'.side == c.up.side && Fill(c', t') == s && c'.up == c.up
      && t'.node == c.node
    ensures Alike(Straightened(c, t), Fill(c, t))
  {
    RotationsKeepOrder(Fill(c, t));
  }

  /** When the loop ends, colouring the root black settles everything. */
  lemma BlackenRoot<N, K, V>(c: Context<N, K, V>, t: Tree<N, K, V>, h: nat)
    requires RedFocus(c, t, h) && !IsRedFrame(c)
    ensures Plug(c, t).Branch?
    ensures RedBlackRoot(Paint(Plug(c, t), Black)) && Alike(Paint(Plug(c, t), Black), Plug(c, t))
  {
    var whole := Plug(c, t);
    if c.Top? {
      assert RedBlack(Paint(t, Black), h + 1);
    } else {
      RedBlackOfPlug(c, t, h);
      NodesOfPlug(c, t);
      assert t.node in Nodes(whole);
      assert Paint(whole, Black) == whole;
    }
  }

  // ----- Deletion -----

  /** `t` is one black node short: the context expects black height `h + 1`. */
  ghost predicate ShortFocus<N, K, V>(c: Context<N, K, V>, t: Tree<N, K, V>, h: nat) {
    && RedBlackContext(c, h + 1)
    && if IsRed(t) then RedBlack(Paint(t, Black), h + 1) else RedBlack(t, h)
  }

  /** Colouring `t` black leaves nothing to repair. */
  ghost predicate Settled<N, K, V>(c: Context<N, K, V>, t: Tree<N, K, V>) {
    RedBlackRoot(Plug(c, Blackened(t)))
  }

  function Blackened<N, K, V>(t: Tree<N, K, V>): Tree<N, K, V> {
    if t.Leaf? then t else Paint(t, Black)
  }

  lemma ShortDone<N, K, V>(c: Context<N, K, V>, t: Tree<N, K, V>, h: nat)
    requires ShortFocus(c, t, h) && (IsRed(t) || c.Top?)
    ensures Settled(c, t)
  {
    if IsRed(t) {
      RedBlackOfPlug(c, Paint(t, Black), h + 1);
    }
  }

  /** A black node with at most one child can only have a red childless one; a red node has none. */
  lemma SpliceStep<N, K, V>(c: Context<N, K, V>, t: Tree<N, K, V>, child: Tree<N, K, V>, h: nat)
    requires t.Branch? && RedBlack(t, h) && RedBlackContext(c, h)
    requires (t.left.Leaf? && child == t.right) || (t.right.Leaf? && child == t.left)
    ensures t.color == Black ==> h == 1 && ShortFocus(c, child, 0)
    ensures t.color == Red ==> child == Leaf && RedBlackRoot(Plug(c, child))
  {
    if t.color == Red {
      RedBlackOfPlug(c, child, h);
    }
  }

  /** The sibling always exists while a black node is missing: its black height is positive. */
  lemma SiblingExists<N, K, V>(c: Context<N, K, V>, t: Tree<N, K, V>, h: nat)
    requires ShortFocus(c, t, h) && c.Frame?
    ensures c.sibling.Branch?
    ensures IsRed(c.sibling) ==> c.color == Black && c.sibling.left.Branch? && c.sibling.right.Branch?
  {
    if IsRed(c.sibling) {
      assert RedBlack(c.sibling.left, h + 1) && RedBlack(c.sibling.right, h + 1);
    }
  }

  function Near<N, K, V>(c: Context<N, K, V>): Tree<N, K, V>
    requires c.Frame? && c.sibling.Branch?
  {
    if c.side.OnLeft? then c.sibling.left else c.sibling.right
  }

  function Far<N, K, V>(c: Context<N, K, V>): Tree<N, K, V>
    requires c.Frame? && c.sibling.Branch?
  {
    if c.side.OnLeft? then c.sibling.right else c.sibling.left
  }

  /** Rotation at the parent, towards the hole. */
  function RotateDown<N, K, V>(side: Side, t: Tree<N, K, V>): Tree<N, K, V>
    requires t.Branch? && (if side.OnLeft? then t.right.Branch? else t.left.Branch?)
  {
    if side.OnLeft? then RotateLeft(t) else RotateRight(t)
  }

  lemma RotateDownAlike<N, K, V>(side: Side, t: Tree<N, K, V>)
    requires t.Branch? && (if side.OnLeft? then t.right.Branch? else t.left.Branch?)
    ensures Alike(RotateDown(side, t), t)
  {
    RotationsKeepOrder(t);
  }

  /** Red sibling: sibling black, parent red, rotate; the hole is one level lower under a black sibling. */
  function Lowered<N, K, V>(c: Context<N, K, V>): Context<N, K, V>
    requires c.Frame? && c.sibling.Branch?
  {
    var s := c.sibling;
    Frame(Frame(c.up, c.side, s.node, Black, s.key, s.value, Far(c)), c.side, c.node, Red, c.key, c.value, Near(c))
  }

  lemma LowerStep<N, K, V>(c: Context<N, K, V>, t: Tree<N, K, V>, h: nat)
    requires ShortFocus(c, t, h) && c.Frame? && IsRed(c.sibling)
    ensures ShortFocus(Lowered(c), t, h) && Lowered(c).sibling.Branch? && !IsRed(Lowered(c).sibling)
    ensures Fill(Lowered(c).up, Fill(Lowered(c), t)) ==
              RotateDown(c.side, Fill(c.(color := Red, sibling := Paint(c.sibling, Black)), t))
    ensures Alike(Fill(Lowered(c).up, Fill(Lowered(c), t)), Fill(c, t))
    ensures Alike(Plug(Lowered(c), t), Plug(c, t))
  {
    SiblingExists(c, t, h);
    RotateDownAlike(c.side, Fill(c.(color := Red, sibling := Paint(c.sibling, Black)), t));
    assert InOrder(Paint(c.sibling, Black)) == InOrder(c.sibling);
    AlikePlug(c.up, Fill(Lowered(c).up, Fill(Lowered(c), t)), Fill(c, t));
    assert Plug(Lowered(c), t) == Plug(Lowered(c).up, Fill(Lowered(c), t));
  }

  /** Black sibling with black children: sibling red, and the shortage moves up. */
  lemma MoveUpStep<N, K, V>(c: Context<N, K, V>, t: Tree<N, K, V>, h: nat)
    requires ShortFocus(c, t, h) && !IsRed(t) && c.Frame? && c.sibling.Branch? && !IsRed(c.sibling)
    requires !IsRed(c.sibling.left) && !IsRed(c.sibling.right)
    ensures var t' := Fill(c.(sibling := Paint(c.sibling, Red)), t);
      && ShortFocus(c.up, t', if c.color == Black then h + 1 else h) && Alike(t', Fill(c, t))
      && (IsRed(t') <==> c.color == Red)
  {
    assert InOrder(Paint(c.sibling, Red)) == InOrder(c.sibling);
    assert RedBlack(Paint(c.sibling, Red), h);
  }

  function PaintChild<N, K, V>(t: Tree<N, K, V>, side: Side, color: Color): Tree<N, K, V>
    requires t.Branch? && (if side.OnLeft? then t.left.Branch? else t.right.Branch?)
  {
    if side.OnLeft? then t.(left := Paint(t.left, color)) else t.(right := Paint(t.right, color))
  }

  function Opposite(side: Side): Side {
    if side.OnLeft? then OnRight else OnLeft
  }

  /** Black sibling whose far child is black: near child black, sibling red, rotate at the sibling. */
  function Swung<N, K, V>(c: Context<N, K, V>): Context<N, K, V>
    requires c.Frame? && c.sibling.Branch? && Near(c).Branch?
  {
    c.(sibling := RotateDown(Opposite(c.side), Paint(PaintChild(c.sibling, c.side, Black), Red)))
  }

  lemma SwingStep<N, K, V>(c: Context<N, K, V>, t: Tree<N, K, V>, h: nat)
    requires ShortFocus(c, t, h) && c.Frame? && c.sibling.Branch? && !IsRed(c.sibling)
    requires IsRed(Near(c)) && !IsRed(Far(c))
    ensures ShortFocus(Swung(c), t, h) && Swung(c).sibling.Branch? && !IsRed(Swung(c).sibling) && IsRed(Far(Swung(c)))
    ensures Alike(Fill(Swung(c), t), Fill(c, t))
  {
    var s := c.sibling;
    var s' := Paint(PaintChild(s, c.side, Black), Red);
    RotateDownAlike(Opposite(c.side), s');
    assert InOrder(Paint(Near(c), Black)) == InOrder(Near(c));
    assert Alike(s', s);
    assert RedBlack(s, h + 1) && RedBlack(Near(c), h) && RedBlack(Far(c), h);
    assert RedBlack(Far(Swung(c)), h);
  }

  /** Black sibling with a red far child: one rotation at the parent ends the shortage. */
  function Finished<N, K, V>(c: Context<N, K, V>, t: Tree<N, K, V>): Tree<N, K, V>
    requires c.Frame? && c.sibling.Branch? && Far(c).Branch?
  {
    RotateDown(c.side, Fill(c.(color := Black,
        sibling := PaintChild(Paint(c.sibling, c.color), Opposite(c.side), Black)), t))
  }

  lemma FinishStep<N, K, V>(c: Context<N, K, V>, t: Tree<N, K, V>, h: nat)
    requires ShortFocus(c, t, h) && !IsRed(t) && c.Frame? && c.sibling.Branch? && !IsRed(c.sibling) && IsRed(Far(c))
    ensures RedBlackRoot(Plug(c.up, Finished(c, t)))
    ensures Alike(Finished(c, t), Fill(c, t))
  {
    var s := PaintChild(Paint(c.sibling, c.color), Opposite(c.side), Black);
    RotateDownAlike(c.side, Fill(c.(color := Black, sibling := s), t));
    assert InOrder(Paint(Far(c), Black)) == InOrder(Far(c));
    assert Alike(s, c.sibling);
    assert RedBlack(c.sibling, h + 1) && RedBlack(Near(c), h) && RedBlack(Far(c), h);
    assert RedBlack(Paint(Far(c), Black), h + 1);
    RedBlackOfPlug(c.up, Finished(c, t), if c.color == Black then h + 2 else h + 1);
  }
}
