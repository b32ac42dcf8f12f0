/** Red-black balance of trees and of the context around a focus. */
module TreeBalance {
  import opened Bits
  import opened TreeShape

  ghost predicate Red<N>(t: Tree<N>) {
    t.Node? && t.red
  }

  /** Every way down from t to a leaf passes h black nodes. */
  ghost predicate BlackHeight<N>(t: Tree<N>, h: int) {
    match t
    case Leaf => h == 0
    case Node(l, _, red, r) =>
      var k := if red then h else h - 1;
      k >= 0 && BlackHeight(l, k) && BlackHeight(r, k)
  }

  ghost predicate NoRedRed<N>(t: Tree<N>) {
    t.Leaf? || ((t.red ==> !Red(t.left) && !Red(t.right)) && NoRedRed(t.left) && NoRedRed(t.right))
  }

  /** Filling the hole with black height h makes the whole tree balanced. */
  ghost predicate PathHeight<N>(p: Path<N>, h: int) {
    match p
    case Top => true
    case InLeft(up, _, red, t) => BlackHeight(t, h) && PathHeight(up, if red then h else h + 1)
    case InRight(up, _, red, t) => BlackHeight(t, h) && PathHeight(up, if red then h else h + 1)
  }

  /** Filling the hole with a black-rooted tree makes no red-red edge, and the root is black. */
  ghost predicate PathNoRedRed<N>(p: Path<N>) {
    match p
    case Top => true
    case InLeft(up, _, red, t) => NoRedRed(t) && PathNoRedRed(up) && (red ==> !Red(t) && !up.Top? && !up.red)
    case InRight(up, _, red, t) => NoRedRed(t) && PathNoRedRed(up) && (red ==> !Red(t) && !up.Top? && !up.red)
  }

  /** A red-black tree. */
  ghost predicate Balanced<N>(t: Tree<N>, h: int) {
    BlackHeight(t, h) && NoRedRed(t) && !Red(t)
  }

  lemma BalancedPlug<N>(p: Path<N>, t: Tree<N>, h: int) returns (k: int)
    requires BlackHeight(t, h) && PathHeight(p, h) && NoRedRed(t) && PathNoRedRed(p)
    requires Red(t) ==> !p.Top? && !p.red
    ensures Balanced(Plug(p, t), k)
  {
    match p
    case Top => k := h;
    case InLeft(up, n, red, right) => k := BalancedPlug(up, Node(t, n, red, right), if red then h else h + 1);
    case InRight(up, n, red, left) => k := BalancedPlug(up, Node(left, n, red, t), if red then h else h + 1);
  }

  lemma BalancedUnplug<N>(p: Path<N>, t: Tree<N>, k: int) returns (h: int)
    requires BlackHeight(Plug(p, t), k) && NoRedRed(Plug(p, t)) && !Red(Plug(p, t))
    ensures BlackHeight(t, h) && PathHeight(p, h) && NoRedRed(t) && PathNoRedRed(p)
    ensures Red(t) ==> !p.Top? && !p.red
  {
    match p
    case Top => h := k;
    case InLeft(up, n, red, right) =>
      h := BalancedUnplug(up, Node(t, n, red, right), k);
      h := if red then h else h - 1;
    case InRight(up, n, red, left) =>
      h := BalancedUnplug(up, Node(left, n, red, t), k);
      h := if red then h else h - 1;
  }

  ghost function Size<N>(t: Tree<N>): nat {
    if t.Leaf? then 0 else Size(t.left) + 1 + Size(t.right)
  }

  lemma InorderSize<N>(t: Tree<N>)
    ensures |Inorder(t)| == Size(t)
    ensures Distinct(t) ==> |Nodes(t)| == Size(t)
  {
    if t.Node? {
      InorderSize(t.left);
      InorderSize(t.right);
    }
  }

  ghost function Height<N>(t: Tree<N>): nat {
    if t.Leaf? then 0 else 1 + if Height(t.left) > Height(t.right) then Height(t.left) else Height(t.right)
  }

  /** A subtree of black height h holds at least 2^h - 1 nodes and is at most 2h (+1 if red) deep. */
  lemma HeightBound<N>(t: Tree<N>, h: nat)
    requires BlackHeight(t, h) && NoRedRed(t)
    ensures Pow2(h) <= Size(t) + 1
    ensures Height(t) <= 2 * h + (if Red(t) then 1 else 0)
  {
    if t.Node? {
      var k := if t.red then h else h - 1;
      HeightBound(t.left, k);
      HeightBound(t.right, k);
    }
  }

  /** Height <= 2 log2(n + 1), written without logarithms. */
  lemma HeightLogarithmic<N>(t: Tree<N>, h: nat)
    requires Balanced(t, h)
    ensures Pow2((Height(t) + 1) / 2) <= Size(t) + 1
  {
    HeightBound(t, h);
    Pow2Monotone((Height(t) + 1) / 2, h);
  }

  // ---------- insertion ----------

  /** The insertion loop's invariant: all is balanced but for a possible red parent of the red focus. */
  ghost predicate RedFocus<N>(p: Path<N>, t: Tree<N>, h: int) {
    Red(t) && NoRedRed(t) && BlackHeight(t, h) && PathNoRedRed(p) && PathHeight(p, h)
  }

  lemma RedFocusParent<N>(p: Path<N>, t: Tree<N>, h: int)
    requires RedFocus(p, t, h) && !p.Top? && p.red
    ensures !p.up.Top? && !p.up.red && Steps(p) == 2 + Steps(p.up.up)
  {
  }

  /** Parent and uncle of the red focus turned black, grandparent red. */
  ghost function PushedUp<N>(p: Path<N>, t: Tree<N>): Tree<N>
    requires !p.Top? && !p.up.Top? && Sibling(p.up).Node?
  {
    var parent, uncle := Fill(p.(red := false), t), Sibling(p.up).(red := false);
    if p.up.InLeft? then Node(parent, p.up.n, true, uncle) else Node(uncle, p.up.n, true, parent)
  }

  lemma PushedUpKeeps<N>(p: Path<N>, t: Tree<N>, h: int)
    requires RedFocus(p, t, h) && !p.Top? && p.red
    requires Red(Sibling(p.up))
    ensures RedFocus(p.up.up, PushedUp(p, t), h + 1)
    ensures Inorder(Plug(p.up.up, PushedUp(p, t))) == Inorder(Plug(p, t))
  {
    var q, u := p.up, Sibling(p.up);
    var parent, uncle := Fill(p.(red := false), t), u.(red := false);
    assert PathHeight(q, h) && PathNoRedRed(q);
    assert BlackHeight(parent, h + 1) && NoRedRed(parent);
    assert BlackHeight(uncle, h + 1) && NoRedRed(uncle);
    assert PathHeight(q.up, h + 1) && PathNoRedRed(q.up);
    InorderPlug(q.up, Fill(q, Fill(p, t)));
    InorderPlug(q.up, PushedUp(p, t));
    assert Inorder(parent) == Inorder(Fill(p, t)) && Inorder(uncle) == Inorder(u);
  }

  /** An inner red focus rotated outwards: its old parent becomes the focus. */
  ghost function TurnedPath<N>(p: Path<N>, t: Tree<N>): Path<N>
    requires !p.Top? && t.Node?
  {
    if p.InRight? then InLeft(p.up, t.n, t.red, t.right) else InRight(p.up, t.n, t.red, t.left)
  }

  ghost function TurnedTree<N>(p: Path<N>, t: Tree<N>): Tree<N>
    requires !p.Top? && t.Node?
  {
    if p.InRight? then Node(p.left, p.n, p.red, t.left) else Node(t.right, p.n, p.red, p.right)
  }

  lemma TurnedKeeps<N>(p: Path<N>, t: Tree<N>, h: int)
    requires RedFocus(p, t, h) && !p.Top? && p.red
    ensures RedFocus(TurnedPath(p, t), TurnedTree(p, t), h) && TurnedPath(p, t).red
    ensures Inorder(Plug(TurnedPath(p, t), TurnedTree(p, t))) == Inorder(Plug(p, t))
  {
    assert BlackHeight(TurnedTree(p, t), h) && NoRedRed(TurnedTree(p, t));
    InorderPlug(p.up, Fill(p, t));
    InorderPlug(p.up, Fill(TurnedPath(p, t), TurnedTree(p, t)));
    if p.InRight? {
      RegroupTurn(Inorder(p.left), [p.n], Inorder(t.left), [t.n], Inorder(t.right));
    } else {
      RegroupTurn(Inorder(t.left), [t.n], Inorder(t.right), [p.n], Inorder(p.right));
    }
  }

  lemma RegroupTurn<N>(a: seq<N>, b: seq<N>, c: seq<N>, d: seq<N>, e: seq<N>)
    ensures a + b + (c + d + e) == (a + b + c) + d + e
  {
  }

  /** An outer red focus below a red parent: the parent rises, black, above its now red old parent. */
  ghost function RaisedPath<N>(p: Path<N>): Path<N>
    requires !p.Top? && !p.up.Top?
  {
    if p.InLeft? then InLeft(p.up.up, p.n, false, Node(p.right, p.up.n, true, Sibling(p.up)))
    else InRight(p.up.up, p.n, false, Node(Sibling(p.up), p.up.n, true, p.left))
  }

  lemma RaisedKeeps<N>(p: Path<N>, t: Tree<N>, h: int)
    requires RedFocus(p, t, h) && !p.Top? && p.red && p.InLeft? == p.up.InLeft?
    requires !Red(Sibling(p.up))
    ensures RedFocus(RaisedPath(p), t, h) && !RaisedPath(p).red
    ensures Inorder(Plug(RaisedPath(p), t)) == Inorder(Plug(p, t))
  {
    var r := Sibling(RaisedPath(p));
    assert PathHeight(p.up, h) && PathNoRedRed(p.up);
    assert BlackHeight(r, h) && NoRedRed(r);
    InorderPlug(p.up.up, Fill(p.up, Fill(p, t)));
    InorderPlug(p.up.up, Fill(RaisedPath(p), t));
    if p.InLeft? {
      RegroupTurn(Inorder(t), [p.n], Inorder(p.right), [p.up.n], Inorder(p.up.right));
    } else {
      RegroupTurn(Inorder(p.up.left), [p.up.n], Inorder(p.left), [p.n], Inorder(t));
    }
  }

  /** The tree the insertion loop leaves, once its root is painted black. */
  lemma RedFocusDone<N>(p: Path<N>, t: Tree<N>, h: int) returns (k: int)
    requires RedFocus(p, t, h) && (p.Top? || !p.red)
    ensures Plug(p, t).Node? && Balanced(Plug(p, t).(red := false), k)
    ensures Inorder(Plug(p, t).(red := false)) == Inorder(Plug(p, t))
  {
    PlugNode(p, t);
    if p.Top? {
      k := h + 1;
    } else {
      k := BalancedPlug(p, t, h);
      assert Plug(p, t).(red := false) == Plug(p, t);
    }
  }

  /** A fresh leaf starts the insertion loop. */
  lemma LeafFocus<N>(p: Path<N>, z: N, k: int) returns (h: int)
    requires Balanced(Plug(p, Leaf), k)
    ensures RedFocus(p, Node(Leaf, z, true, Leaf), h)
    ensures Inorder(Plug(p, Node(Leaf, z, true, Leaf))) == Before(p) + [z] + After(p)
    ensures Inorder(Plug(p, Leaf)) == Before(p) + After(p)
  {
    h := BalancedUnplug(p, Leaf, k);
    InorderPlug(p, Leaf);
    InorderPlug(p, Node(Leaf, z, true, Leaf));
    assert Inorder<N>(Leaf) == [] && Before(p) + [] + After(p) == Before(p) + After(p);
    assert [] + [z] + [] == [z];
  }

  // ---------- deletion ----------

  ghost function Blackened<N>(t: Tree<N>): Tree<N> {
    if t.Leaf? then t else t.(red := false)
  }

  /** The deletion loop's invariant: the focus is one black node short, and may be a red root over red children. */
  ghost predicate ShortFocus<N>(p: Path<N>, t: Tree<N>, h: int) {
    BlackHeight(t, h) && PathHeight(p, h + 1) && NoRedRed(Blackened(t)) && PathNoRedRed(p)
  }

  ghost function WithSibling<N>(p: Path<N>, s: Tree<N>): Path<N>
    requires !p.Top?
  {
    if p.InLeft? then p.(right := s) else p.(left := s)
  }

  /** The two children of the sibling, the one next to the focus first. */
  ghost function Inner<N>(p: Path<N>): Tree<N>
    requires !p.Top? && Sibling(p).Node?
  {
    if p.InLeft? then p.right.left else p.left.right
  }

  ghost function Outer<N>(p: Path<N>): Tree<N>
    requires !p.Top? && Sibling(p).Node?
  {
    if p.InLeft? then p.right.right else p.left.left
  }

  lemma BlackHeightNatural<N>(t: Tree<N>, h: int)
    requires BlackHeight(t, h)
    ensures h >= 0
  {
  }

  lemma ShortSibling<N>(p: Path<N>, t: Tree<N>, h: int)
    requires ShortFocus(p, t, h) && !p.Top?
    ensures Sibling(p).Node? && BlackHeight(Sibling(p), h + 1) && NoRedRed(Sibling(p))
    ensures Red(Sibling(p)) ==> !p.red && Inner(p).Node? && !Red(Inner(p))
  {
    BlackHeightNatural(t, h);
    assert Red(Sibling(p)) ==> BlackHeight(Inner(p), h + 1);
  }

  /** A red sibling rotated above the parent; the focus gets a black sibling. */
  ghost function LoweredPath<N>(p: Path<N>): Path<N>
    requires !p.Top? && Sibling(p).Node?
  {
    if p.InLeft? then InLeft(InLeft(p.up, p.right.n, false, p.right.right), p.n, true, p.right.left)
    else InRight(InRight(p.up, p.left.n, false, p.left.left), p.n, true, p.left.right)
  }

  lemma LoweredKeeps<N>(p: Path<N>, t: Tree<N>, h: int)
    requires ShortFocus(p, t, h) && !Red(t) && !p.Top? && Red(Sibling(p))
    ensures ShortFocus(LoweredPath(p), t, h) && !Red(Sibling(LoweredPath(p))) && Sibling(LoweredPath(p)).Node?
    ensures Inorder(Plug(LoweredPath(p), t)) == Inorder(Plug(p, t))
  {
    ShortSibling(p, t, h);
    var q := LoweredPath(p);
    assert BlackHeight(Inner(p), h + 1) && BlackHeight(Outer(p), h + 1);
    assert PathHeight(p.up, h + 2) && PathHeight(q.up, h + 1);
    InorderPlug(p.up, Fill(p, t));
    InorderPlug(p.up, Fill(q.up, Fill(q, t)));
    if p.InLeft? {
      RegroupTurn(Inorder(t), [p.n], Inorder(p.right.left), [p.right.n], Inorder(p.right.right));
    } else {
      RegroupTurn(Inorder(p.left.left), [p.left.n], Inorder(p.left.right), [p.n], Inorder(t));
    }
  }

  /** The sibling and its children are black: the sibling turns red and the shortage moves up. */
  lemma ReddenedKeeps<N>(p: Path<N>, t: Tree<N>, h: int)
    requires ShortFocus(p, t, h) && !Red(t) && !p.Top? && Sibling(p).Node? && !Red(Sibling(p))
    requires !Red(Inner(p)) && !Red(Outer(p))
    ensures ShortFocus(p.up, Fill(WithSibling(p, Sibling(p).(red := true)), t), if p.red then h else h + 1)
    ensures Inorder(Plug(p.up, Fill(WithSibling(p, Sibling(p).(red := true)), t))) == Inorder(Plug(p, t))
  {
    var s := Sibling(p).(red := true);
    var t' := Fill(WithSibling(p, s), t);
    assert BlackHeight(s, h) && NoRedRed(s) && NoRedRed(t);
    assert BlackHeight(t', if p.red then h else h + 1);
    assert Inorder(s) == Inorder(Sibling(p));
    InorderPlug(p.up, t');
    InorderPlug(p.up, Fill(p, t));
  }

  /** Only the inner nephew is red: rotate it above the sibling. */
  ghost function NephewRaised<N>(p: Path<N>): Path<N>
    requires !p.Top? && Sibling(p).Node? && Inner(p).Node?
  {
    var s, i := Sibling(p), Inner(p);
    if p.InLeft? then p.(right := Node(i.left, i.n, false, Node(i.right, s.n, true, s.right)))
    else p.(left := Node(Node(s.left, s.n, true, i.left), i.n, false, i.right))
  }

  lemma NephewRaisedKeeps<N>(p: Path<N>, t: Tree<N>, h: int)
    requires ShortFocus(p, t, h) && !p.Top? && Sibling(p).Node? && !Red(Sibling(p))
    requires Red(Inner(p)) && !Red(Outer(p))
    ensures ShortFocus(NephewRaised(p), t, h) && !Red(Sibling(NephewRaised(p))) && Red(Outer(NephewRaised(p)))
    ensures Inorder(Plug(NephewRaised(p), t)) == Inorder(Plug(p, t))
  {
    var s, i, q := Sibling(p), Inner(p), NephewRaised(p);
    assert BlackHeight(i, h) && BlackHeight(Outer(p), h);
    assert NoRedRed(s) && NoRedRed(i);
    assert BlackHeight(Outer(q), h) && NoRedRed(Outer(q));
    assert BlackHeight(Sibling(q), h + 1) && NoRedRed(Sibling(q));
    InorderPlug(p.up, Fill(p, t));
    InorderPlug(p.up, Fill(q, t));
    if p.InLeft? {
      RegroupTurn(Inorder(i.left), [i.n], Inorder(i.right), [s.n], Inorder(s.right));
    } else {
      RegroupTurn(Inorder(s.left), [s.n], Inorder(i.left), [i.n], Inorder(i.right));
    }
    assert Inorder(Sibling(q)) == Inorder(s);
  }

  /** The outer nephew is red: rotate the sibling above the parent and the shortage is gone. */
  ghost function MadeUp<N>(p: Path<N>, t: Tree<N>): Tree<N>
    requires !p.Top? && Sibling(p).Node? && Outer(p).Node?
  {
    var s, o := Sibling(p), Outer(p).(red := false);
    if p.InLeft? then Node(Node(t, p.n, false, s.left), s.n, p.red, o)
    else Node(o, s.n, p.red, Node(s.right, p.n, false, t))
  }

  lemma MadeUpKeeps<N>(p: Path<N>, t: Tree<N>, h: int) returns (k: int)
    requires ShortFocus(p, t, h) && !Red(t) && !p.Top? && Sibling(p).Node? && !Red(Sibling(p)) && Red(Outer(p))
    ensures ShortFocus(Top, Plug(p.up, MadeUp(p, t)), k) && !Red(Plug(p.up, MadeUp(p, t)))
    ensures Inorder(Plug(p.up, MadeUp(p, t))) == Inorder(Plug(p, t))
  {
    var s, o, u := Sibling(p), Outer(p), MadeUp(p, t);
    assert BlackHeight(s, h + 1) && BlackHeight(o, h) && BlackHeight(Inner(p), h) && NoRedRed(s) && NoRedRed(Outer(p));
    var inner := if p.InLeft? then u.left else u.right;
    var outer := if p.InLeft? then u.right else u.left;
    assert BlackHeight(inner, h + 1) && NoRedRed(inner) && BlackHeight(outer, h + 1) && NoRedRed(outer);
    k := BalancedPlug(p.up, u, if p.red then h + 1 else h + 2);
    assert Inorder(outer) == Inorder(o);
    InorderPlug(p.up, Fill(p, t));
    InorderPlug(p.up, u);
    if p.InLeft? {
      RegroupTurn(Inorder(t), [p.n], Inorder(s.left), [s.n], Inorder(s.right));
    } else {
      RegroupTurn(Inorder(s.left), [s.n], Inorder(s.right), [p.n], Inorder(t));
    }
  }

  /** The tree the deletion loop leaves, once the focus is painted black. */
  lemma ShortFocusDone<N>(p: Path<N>, t: Tree<N>, h: int) returns (k: int)
    requires ShortFocus(p, t, h) && (p.Top? || Red(t))
    ensures Balanced(Plug(p, Blackened(t)), k)
    ensures Inorder(Plug(p, Blackened(t))) == Inorder(Plug(p, t))
  {
    k := BalancedPlug(p, Blackened(t), if Red(t) then h + 1 else h);
    InorderPlug(p, t);
    InorderPlug(p, Blackened(t));
  }

  /** What taking out a node with one empty side leaves: a balanced tree, or a focus one black node short. */
  lemma SpliceBalance<N>(p: Path<N>, t: Tree<N>, c: Tree<N>, k: int) returns (h: int)
    requires Balanced(Plug(p, t), k) && t.Node?
    requires (t.left.Leaf? && c == t.right) || (t.right.Leaf? && c == t.left)
    ensures !t.red ==> ShortFocus(p, c, h)
    ensures t.red ==> Balanced(Plug(p, c), h)
  {
    h := BalancedUnplug(p, t, k);
    if t.red {
      h := BalancedPlug(p, c, h);
    } else {
      h := h - 1;
      assert BlackHeight(c, h);
    }
  }

  /** Balance does not look at the nodes themselves. */
  lemma {:induction false} ConcatBalance<N>(q: Path<N>, p: Path<N>, z: N, y: N, red: bool, l: Tree<N>, h: int)
    ensures var P, P' := Concat(q, InRight(p, z, red, l)), Concat(q, InRight(p, y, red, l));
      && (PathHeight(P, h) <==> PathHeight(P', h))
      && (PathNoRedRed(P) <==> PathNoRedRed(P'))
      && !P.Top? && !P'.Top? && P.red == P'.red
    decreases q
  {
    if !q.Top? {
      ConcatBalance(q.up, p, z, y, red, l, h);
      ConcatBalance(q.up, p, z, y, red, l, h + 1);
    }
  }

  lemma SwapOutBalance<N>(p: Path<N>, t: Tree<N>, q: Path<N>, s: Tree<N>, k: int) returns (h: int)
    requires Balanced(Plug(p, t), k) && t.Node? && t.right == Plug(q, s) && s.Node? && s.left.Leaf?
    ensures !s.red ==> ShortFocus(Concat(q, InRight(p, s.n, t.red, t.left)), s.right, h)
    ensures s.red ==> Balanced(Plug(Concat(q, InRight(p, s.n, t.red, t.left)), s.right), h)
  {
    var o := InRight(p, t.n, t.red, t.left);
    var P' := Concat(q, InRight(p, s.n, t.red, t.left));
    PlugConcat(q, o, s);
    h := BalancedUnplug(Concat(q, o), s, k);
    ConcatBalance(q, p, t.n, s.n, t.red, t.left, h);
    if s.red {
      h := BalancedPlug(P', s.right, h);
    } else {
      h := h - 1;
      assert BlackHeight(s.right, h);
    }
  }
}
