/** Searching a sorted tree: what a comparison at one node says about the rest, and how deep a
    red-black tree can be. */
module TreeSearch {
  import opened OrderedEntries
  import opened RedBlackTree

  /** The key is not outside the position. */
  ghost predicate Narrowed<N, K, V>(cmp: Comparator<K>, c: Context<N, K, V>, k: K) {
    Below(cmp, Before(c), k) && Above(cmp, After(c), k)
  }

  /** The two sides of an entry of a sorted sequence. */
  lemma SortedSides<K(!new), V>(cmp: Comparator<K>, l: seq<(K, V)>, e: (K, V), r: seq<(K, V)>)
    requires Sorted(cmp, l + [e] + r)
    ensures Sorted(cmp, l) && Below(cmp, l, e.0)
    ensures Sorted(cmp, r) && Above(cmp, r, e.0)
  {
    var s, n := l + [e] + r, |l|;
    forall i, j | 0 <= i < j < |l| ensures cmp(l[i].0, l[j].0) < 0 {
      assert s[i] == l[i] && s[j] == l[j];
    }
    forall i, j | 0 <= i < j < |r| ensures cmp(r[i].0, r[j].0) < 0 {
      assert s[n + 1 + i] == r[i] && s[n + 1 + j] == r[j];
    }
    forall i | 0 <= i < |l| ensures cmp(l[i].0, e.0) < 0 {
      assert s[i] == l[i] && s[n] == e;
    }
    forall i | 0 <= i < |r| ensures cmp(e.0, r[i].0) < 0 {
      assert s[n] == e && s[n + 1 + i] == r[i];
    }
  }

  lemma BelowConcat<K, V>(cmp: Comparator<K>, a: seq<(K, V)>, b: seq<(K, V)>, k: K)
    requires Below(cmp, a, k) && Below(cmp, b, k)
    ensures Below(cmp, a + b, k)
  {
  }

  lemma AboveConcat<K, V>(cmp: Comparator<K>, a: seq<(K, V)>, b: seq<(K, V)>, k: K)
    requires Above(cmp, a, k) && Above(cmp, b, k)
    ensures Above(cmp, a + b, k)
  {
  }

  lemma BelowTransitive<K(!new), V>(cmp: Comparator<K>, s: seq<(K, V)>, k: K, k': K)
    requires TotalPreorder(cmp) && Below(cmp, s, k) && cmp(k', k) >= 0
    ensures Below(cmp, s, k')
  {
    forall i | 0 <= i < |s| ensures cmp(s[i].0, k') < 0 {
      Transitive(cmp, s[i].0, k, k');
      Transitive(cmp, k, k', k);
    }
  }

  lemma AboveTransitive<K(!new), V>(cmp: Comparator<K>, s: seq<(K, V)>, k: K, k': K)
    requires TotalPreorder(cmp) && Above(cmp, s, k) && cmp(k', k) <= 0
    ensures Above(cmp, s, k')
  {
    forall i | 0 <= i < |s| ensures cmp(k', s[i].0) < 0 {
      Transitive(cmp, k', k, s[i].0);
    }
  }

  /** What one comparison says about the entries on both sides. */
  lemma Narrow<N, K(!new), V>(cmp: Comparator<K>, c: Context<N, K, V>, t: Tree<N, K, V>, k: K)
    requires TotalPreorder(cmp) && t.Branch? && Narrowed(cmp, c, k)
    requires Sorted(cmp, InOrder(t))
    ensures cmp(k, t.key) < 0 ==> Narrowed(cmp, GoLeft(c, t), k)
    ensures cmp(k, t.key) > 0 ==> Narrowed(cmp, GoRight(c, t), k)
    ensures cmp(k, t.key) == 0 ==>
      Below(cmp, Before(c) + InOrder(t.left), k) && Above(cmp, InOrder(t.right) + After(c), k)
    ensures Sorted(cmp, InOrder(t.left)) && Sorted(cmp, InOrder(t.right))
  {
    var l, e, r := InOrder(t.left), (t.key, t.value), InOrder(t.right);
    SortedSides(cmp, l, e, r);
    Transitive(cmp, k, t.key, k);
    if cmp(k, t.key) >= 0 {
      BelowTransitive(cmp, l, t.key, k);
      BelowConcat(cmp, Before(c), l, k);
    }
    if cmp(k, t.key) <= 0 {
      AboveTransitive(cmp, r, t.key, k);
      AboveConcat(cmp, r, After(c), k);
    }
    if cmp(k, t.key) > 0 {
      BelowConcat(cmp, Before(c) + l, [e], k);
    } else if cmp(k, t.key) < 0 {
      AboveConcat(cmp, [e], r, k);
      AboveConcat(cmp, [e] + r, After(c), k);
    }
  }

  /** The entries around a node, split at the node. */
  lemma AroundEntry<N, K, V>(c: Context<N, K, V>, t: Tree<N, K, V>)
    requires t.Branch?
    ensures InOrder(Plug(c, t)) == (Before(c) + InOrder(t.left)) + [(t.key, t.value)] + (InOrder(t.right) + After(c))
  {
    InOrderOfPlug(c, t);
    Regroup(Before(c), InOrder(t.left), [(t.key, t.value)], InOrder(t.right), After(c));
  }

  lemma Regroup<T>(a: seq<T>, l: seq<T>, e: seq<T>, r: seq<T>, b: seq<T>)
    ensures a + (l + e + r) + b == (a + l) + e + (r + b)
  {
  }

  function Height<N, K, V>(t: Tree<N, K, V>): nat {
    if t.Leaf? then 0 else 1 + if Height(t.left) > Height(t.right) then Height(t.left) else Height(t.right)
  }

  /** The comparisons on the way to a position: one at every node above it and one at the node there, if any. */
  function Comparisons<N, K, V>(c: Context<N, K, V>, t: Tree<N, K, V>): nat {
    Depth(c) + if t.Leaf? then 0 else 1
  }

  /** A tree is at least as high as the way to any of its positions is long. */
  lemma {:induction false} HeightOfPlug<N, K, V>(c: Context<N, K, V>, t: Tree<N, K, V>)
    ensures Depth(c) + Height(t) <= Height(Plug(c, t))
    ensures Comparisons(c, t) <= Height(Plug(c, t))
    decreases c
  {
    if c.Frame? {
      HeightOfPlug(c.up, Fill(c, t));
    }
  }

  function Pow2(n: nat): nat {
    if n == 0 then 1 else 2 * Pow2(n - 1)
  }

  lemma {:induction false} Pow2Adds(a: nat, b: nat)
    ensures Pow2(a + b) == Pow2(a) * Pow2(b)
  {
    if a > 0 {
      Pow2Adds(a - 1, b);
    }
  }

  lemma {:induction false} Pow2Grows(a: nat, b: nat)
    requires a <= b
    ensures 1 <= Pow2(a) <= Pow2(b)
  {
    if a < b {
      Pow2Grows(a, b - 1);
    } else if b > 0 {
      Pow2Grows(a - 1, b - 1);
    }
  }

  /** Black height `h` means at most `2h` levels (one more under a red root) and at least `2^h - 1` entries. */
  lemma {:induction false} BlackHeightBounds<N, K, V>(t: Tree<N, K, V>, h: nat)
    requires RedBlack(t, h)
    ensures Height(t) <= 2 * h + if IsRed(t) then 1 else 0
    ensures |InOrder(t)| + 1 >= Pow2(h)
  {
    if t.Branch? {
      var g := if t.color == Red then h else h - 1;
      BlackHeightBounds(t.left, g);
      BlackHeightBounds(t.right, g);
    }
  }

  lemma SquareGrows(a: nat, b: nat)
    requires a <= b
    ensures a * a <= b * b
  {
    assert a * a <= a * b <= b * b;
  }

  /** Height at most `2 log2(size + 1)`, written without logarithms. */
  lemma LogarithmicHeight<N, K, V>(t: Tree<N, K, V>)
    requires RedBlackRoot(t)
    ensures Pow2(Height(t)) <= (|InOrder(t)| + 1) * (|InOrder(t)| + 1)
  {
    var h: nat :| RedBlack(t, h);
    BlackHeightBounds(t, h);
    Pow2Grows(Height(t), h + h);
    Pow2Adds(h, h);
    SquareGrows(Pow2(h), |InOrder(t)| + 1);
  }

  // ----- The leftmost position of a subtree -----

  function MinTree<N, K, V>(t: Tree<N, K, V>): (r: Tree<N, K, V>)
    requires t.Branch?
    ensures r.Branch? && r.left.Leaf?
  {
    if t.left.Leaf? then t else MinTree(t.left)
  }

  function MinContext<N, K, V>(c: Context<N, K, V>, t: Tree<N, K, V>): Context<N, K, V>
    requires t.Branch?
    decreases t
  {
    if t.left.Leaf? then c else MinContext(GoLeft(c, t), t.left)
  }

  lemma DropFirst<T>(a: seq<T>, l: seq<T>, e: seq<T>, r: seq<T>, b: seq<T>)
    requires l != []
    ensures (l + e + r)[1..] == l[1..] + e + r && (l + e + r)[0] == l[0]
    ensures a + l[1..] + (e + r + b) == a + (l + e + r)[1..] + b
  {
  }

  /** The leftmost node holds the first entry, and taking it out removes just that entry. */
  lemma {:induction false} MinPosition<N, K, V>(c: Context<N, K, V>, t: Tree<N, K, V>)
    requires t.Branch?
    ensures Plug(MinContext(c, t), MinTree(t)) == Plug(c, t)
    ensures InOrder(t) != [] && InOrder(t)[0] == (MinTree(t).key, MinTree(t).value)
    ensures InOrder(Plug(MinContext(c, t), MinTree(t).right)) == Before(c) + InOrder(t)[1..] + After(c)
    decreases t
  {
    if t.left.Leaf? {
      InOrderOfPlug(c, t.right);
      assert InOrder(t)[1..] == InOrder(t.right);
    } else {
      MinPosition(GoLeft(c, t), t.left);
      var l, e, r := InOrder(t.left), [(t.key, t.value)], InOrder(t.right);
      DropFirst(Before(c), l, e, r, After(c));
    }
  }

  lemma SplitFirst<T>(a: seq<T>, r: seq<T>, b: seq<T>)
    requires r != []
    ensures a + [r[0]] + r[1..] + b == a + (r + b)
  {
  }

  /** Replacing an entry by its in-order successor and taking the successor out removes that entry. */
  lemma SuccessorPosition<N, K, V>(c: Context<N, K, V>, t: Tree<N, K, V>)
    requires t.Branch? && t.right.Branch?
    ensures var s := MinTree(t.right);
      var t' := t.(key := s.key, value := s.value);
        && Plug(MinContext(GoRight(c, t'), t.right), s) == Plug(c, t')
        && InOrder(Plug(MinContext(GoRight(c, t'), t.right), s.right)) ==
             (Before(c) + InOrder(t.left)) + (InOrder(t.right) + After(c))
  {
    MinPosition(c, t.right);
    var s := MinTree(t.right);
    var t' := t.(key := s.key, value := s.value);
    MinPosition(GoRight(c, t'), t.right);
    var r := InOrder(t.right);
    SplitFirst(Before(c) + InOrder(t.left), r, After(c));
  }

  // ----- Traversal with a visitor that may stop it -----

  /** A visitor has seen the elements `v` of `s`: from the first on, all accepted, to the end (`more`), or up to and
      including the first one it refused. */
  predicate Visited<E(==)>(visit: E -> bool, s: seq<E>, v: seq<E>, more: bool) {
    && v <= s && (forall i :: 0 <= i < |v| - 1 ==> visit(v[i]))
    && if more then v == s && (v != [] ==> visit(v[|v| - 1])) else v != [] && !visit(v[|v| - 1])
  }

  /** There is one way to visit a sequence. */
  lemma OneVisit<E>(visit: E -> bool, s: seq<E>, v: seq<E>, more: bool, v': seq<E>, more': bool)
    requires Visited(visit, s, v, more) && Visited(visit, s, v', more')
    ensures v == v' && more == more'
  {
    assert forall i :: 0 <= i < |v| - 1 ==> s[i] == v[i] && visit(s[i]);
    assert forall i :: 0 <= i < |v'| - 1 ==> s[i] == v'[i] && visit(s[i]);
    assert v != [] ==> s[|v| - 1] == v[|v| - 1];
    assert v' != [] ==> s[|v'| - 1] == v'[|v'| - 1];
    assert |v| == |v'|;
  }

  lemma VisitStops<E>(visit: E -> bool, l: seq<E>, e: E, r: seq<E>, v: seq<E>)
    requires Visited(visit, l, v, false)
    ensures Visited(visit, l + [e] + r, v, false)
  {
  }

  lemma VisitRefused<E>(visit: E -> bool, l: seq<E>, e: E, r: seq<E>, v: seq<E>)
    requires Visited(visit, l, v, true) && !visit(e)
    ensures Visited(visit, l + [e] + r, v + [e], false)
  {
  }

  lemma VisitGoesOn<E>(visit: E -> bool, l: seq<E>, e: E, r: seq<E>, v: seq<E>, w: seq<E>, more: bool)
    requires Visited(visit, l, v, true) && visit(e) && Visited(visit, r, w, more)
    ensures Visited(visit, l + [e] + r, v + [e] + w, more)
  {
    var u := v + [e] + w;
    forall i | 0 <= i < |u| - 1 ensures visit(u[i]) {
      assert u[i] == if i < |v| then v[i] else if i == |v| then e else w[i - |v| - 1];
    }
  }
}
