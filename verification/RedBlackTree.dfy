/** A red-black tree with string keys and parent links, changed in place: rotations, insertion, deletion, search and walk.
    A ghost tree says what the links spell, and each method says how that tree, and so the order of the keys, changes. */
module RedBlackTree {
  import opened Bits
  import opened Options
  import opened OrdinalStrings
  import opened TreeShape
  import opened TreeBalance

  class RBNode<D> {
    const key: string
    var data: Option<D>
    var isRed: bool
    var left: RBNode<D>
    var right: RBNode<D>
    var parent: RBNode<D>

    constructor (key: string, data: Option<D>, isRed: bool)
      ensures this.key == key && this.data == data && this.isRed == isRed
      ensures left == this && right == this && parent == this
    {
      this.key, this.data, this.isRed := key, data, isRed;
      left, right, parent := this, this, this;
    }

    ghost function Fields(): Links<RBNode<D>>
      reads this
    {
      Links(left, right, parent, isRed)
    }
  }

  ghost predicate Sorted<D>(s: seq<RBNode<D>>) {
    forall i, j :: 0 <= i <= j < |s| ==> Compare(s[i].key, s[j].key) <= 0
  }

  /** Sorted by the comparison is sorted in ordinal order. */
  lemma SortedMeans<D>(s: seq<RBNode<D>>)
    requires Sorted(s)
    ensures forall i, j :: 0 <= i < j < |s| ==> s[i].key == s[j].key || ComesBefore(s[i].key, s[j].key)
  {
    hide Compare, ComesBefore;
    forall i, j | 0 <= i < j < |s| ensures s[i].key == s[j].key || ComesBefore(s[i].key, s[j].key) {
      CompareEqual(s[i].key, s[j].key);
      CompareIsOrdinal(s[i].key, s[j].key);
    }
  }

  /** Every key of before is at most key, every key of after is greater. */
  ghost predicate Between<D>(before: seq<RBNode<D>>, key: string, after: seq<RBNode<D>>) {
    && (forall n :: n in before ==> Compare(key, n.key) >= 0)
    && (forall n :: n in after ==> Compare(key, n.key) < 0)
  }

  /** s' is s with node entered at position k, after every key not above its own. */
  ghost predicate InsertedAt<D>(s: seq<RBNode<D>>, s': seq<RBNode<D>>, node: RBNode<D>, k: int) {
    0 <= k <= |s| && s' == s[..k] + [node] + s[k..] && Between(s[..k], node.key, s[k..])
  }

  /** s' is s without the node at position k. */
  ghost predicate RemovedAt<D>(s: seq<RBNode<D>>, s': seq<RBNode<D>>, node: RBNode<D>, k: int) {
    0 <= k < |s| && s[k] == node && s' == s[..k] + s[k + 1..]
  }

  lemma SortedRemove<D>(before: seq<RBNode<D>>, z: RBNode<D>, after: seq<RBNode<D>>)
    requires Sorted(before + [z] + after)
    ensures Sorted(before + after) && RemovedAt(before + [z] + after, before + after, z, |before|)
  {
    var s, w := before + [z] + after, before + after;
    forall i, j | 0 <= i <= j < |w| ensures Compare(w[i].key, w[j].key) <= 0 {
      assert w[i] == s[if i < |before| then i else i + 1];
      assert w[j] == s[if j < |before| then j else j + 1];
    }
  }

  lemma SortedAround<D>(b: seq<RBNode<D>>, l: seq<RBNode<D>>, x: RBNode<D>, r: seq<RBNode<D>>, a: seq<RBNode<D>>)
    requires Sorted(b + (l + [x] + r) + a)
    ensures forall n :: n in l ==> Compare(n.key, x.key) <= 0
    ensures forall n :: n in r ==> Compare(x.key, n.key) <= 0
  {
    var s := b + (l + [x] + r) + a;
    var k := |b| + |l|;
    assert s[k] == x;
    forall n | n in r ensures Compare(x.key, n.key) <= 0 {
      var i :| 0 <= i < |r| && r[i] == n;
      assert s[k + 1 + i] == n;
    }
    forall n | n in l ensures Compare(n.key, x.key) <= 0 {
      var i :| 0 <= i < |l| && l[i] == n;
      assert s[|b| + i] == n;
    }
  }

  /** One comparison of the search: the passed node and all beyond it fall on one side. */
  lemma SearchStep<D>(b: seq<RBNode<D>>, l: seq<RBNode<D>>, x: RBNode<D>, r: seq<RBNode<D>>, a: seq<RBNode<D>>, key: string)
    requires Sorted(b + (l + [x] + r) + a) && Between(b, key, a)
    ensures if Compare(key, x.key) < 0 then Between(b, key, [x] + r + a) else Between(b + l + [x], key, a)
  {
    SortedAround(b, l, x, r, a);
    if Compare(key, x.key) < 0 {
      forall n | n in r ensures Compare(key, n.key) < 0 {
        CompareTransitive(key, x.key, n.key);
      }
    } else {
      forall n | n in l ensures Compare(key, n.key) >= 0 {
        CompareAntisymmetric(key, x.key);
        CompareTransitive(n.key, x.key, key);
        CompareAntisymmetric(n.key, key);
      }
    }
  }

  ghost function Keys<D>(s: seq<RBNode<D>>): set<string> {
    set i | 0 <= i < |s| :: s[i].key
  }

  /** A key that differs from x's, and falls on one side of it, is not on the other side. */
  lemma SearchMiss<D>(b: seq<RBNode<D>>, l: seq<RBNode<D>>, x: RBNode<D>, r: seq<RBNode<D>>, a: seq<RBNode<D>>, key: string)
    requires Sorted(b + (l + [x] + r) + a) && x.key != key && key !in Keys(b) && key !in Keys(a)
    ensures Compare(key, x.key) < 0 ==> key !in Keys([x] + r + a)
    ensures Compare(key, x.key) > 0 ==> key !in Keys(b + l + [x])
  {
    SortedAround(b, l, x, r, a);
    forall n | n in r && Compare(key, x.key) < 0 ensures n.key != key {
      CompareTransitive(key, x.key, n.key);
      CompareEqual(key, key);
    }
    forall n | n in l && Compare(key, x.key) > 0 ensures n.key != key {
      CompareAntisymmetric(key, x.key);
    }
  }

  lemma SortedInsert<D>(before: seq<RBNode<D>>, z: RBNode<D>, after: seq<RBNode<D>>)
    requires Sorted(before + after) && Between(before, z.key, after)
    ensures Sorted(before + [z] + after)
  {
    var s, w := before + after, before + [z] + after;
    CompareEqual(z.key, z.key);
    forall i, j | 0 <= i <= j < |w| ensures Compare(w[i].key, w[j].key) <= 0 {
      if i == |before| {
        assert j > i ==> w[j] in after;
      } else if j == |before| {
        assert w[i] in before;
        CompareAntisymmetric(z.key, w[i].key);
      } else {
        assert w[i] == s[if i < |before| then i else i - 1];
        assert w[j] == s[if j < |before| then j else j - 1];
      }
    }
  }

  class RBTree<D> {
    var root: RBNode<D>
    const nil: RBNode<D>
    ghost var nodes: set<RBNode<D>>
    ghost var tree: Tree<RBNode<D>>

    constructor ()
      ensures Valid() && tree == Leaf
      ensures fresh(nil)
    {
      var n := new RBNode("", None, false);
      nil := n;
      root := n;
      nodes := {};
      tree := Leaf;
      new;
      assert Balanced(tree, 0);
    }

    ghost function Table(): View<RBNode<D>>
      reads this`nodes, nodes
    {
      map n | n in nodes :: n.Fields()
    }

    /** The heap spells out Plug(p, t). */
    ghost predicate Focused(p: Path<RBNode<D>>, t: Tree<RBNode<D>>)
      reads this`nodes, this`root, nodes
    {
      Spells(Table(), root, nil, p, t)
    }

    ghost predicate Valid()
      reads this, nodes, nil
    {
      && Focused(Top, tree) && !nil.isRed
      && (exists h :: Balanced(tree, h))
      && Sorted(Inorder(tree))
    }

    ghost predicate ReadsAs(n: RBNode<D>, left: RBNode<D>, right: RBNode<D>, parent: RBNode<D>, red: bool)
      reads this, nodes
    {
      n in nodes && n.left == left && n.right == right && n.parent == parent && n.isRed == red
    }

    /** What the focus says about the fields of the nodes nearest to it. */
    lemma Nearby(p: Path<RBNode<D>>, t: Tree<RBNode<D>>)
      requires Focused(p, t)
      ensures nil !in nodes && nodes == PathNodes(p) + Nodes(t)
      ensures t.Node? ==> ReadsAs(t.n, RootOf(t.left, nil), RootOf(t.right, nil), HoleParent(p, nil), t.red)
      ensures p.InLeft? ==> ReadsAs(p.n, RootOf(t, nil), RootOf(p.right, nil), HoleParent(p.up, nil), p.red)
      ensures p.InRight? ==> ReadsAs(p.n, RootOf(p.left, nil), RootOf(t, nil), HoleParent(p.up, nil), p.red)
      ensures t.Node? && !p.Top? ==> p.n != t.n
      ensures t.Node? && p.InLeft? && p.right.Node? ==> p.right.n != t.n && p.right.n in nodes
      ensures t.Node? && p.InRight? && p.left.Node? ==> p.left.n != t.n && p.left.n in nodes
      ensures t.Node? && t.left.Node? ==> t.left.n in nodes
      ensures t.Node? && t.right.Node? ==> t.right.n in nodes
      ensures p.Top? ==> root == RootOf(t, nil)
    {
      if t.Node? && p.InLeft? && p.right.Node? { assert p.right.n in Nodes(p.right); }
      if t.Node? && p.InRight? && p.left.Node? { assert p.left.n in Nodes(p.left); }
      if t.Node? && t.left.Node? { assert t.left.n in Nodes(t.left); }
      if t.Node? && t.right.Node? { assert t.right.n in Nodes(t.right); }
    }

    lemma Down(p: Path<RBNode<D>>, t: Tree<RBNode<D>>)
      requires t.Node?
      ensures Focused(p, t) <==> Focused(InLeft(p, t.n, t.red, t.right), t.left)
      ensures Focused(p, t) <==> Focused(InRight(p, t.n, t.red, t.left), t.right)
    {
      SpellsDown(Table(), root, nil, p, t);
    }

    lemma Zoom(p: Path<RBNode<D>>, t: Tree<RBNode<D>>)
      ensures Focused(p, t) <==> Focused(Top, Plug(p, t))
      ensures t.Node? ==> Plug(p, t).Node?
    {
      SpellsPlug(Table(), root, nil, p, t);
      PlugNode(p, t);
    }

    lemma Up(p: Path<RBNode<D>>, t: Tree<RBNode<D>>)
      requires !p.Top?
      ensures Focused(p, t) <==> Focused(p.up, Fill(p, t))
      ensures Focused(p, t) <==> Focused(Across(p, t), Sibling(p))
    {
      SpellsUp(Table(), root, nil, p, t);
    }

    method Paint(x: RBNode<D>, red: bool, ghost p: Path<RBNode<D>>, ghost t: Tree<RBNode<D>>)
      requires t.Node? && t.n == x && Focused(p, t)
      modifies nodes`isRed
      ensures Focused(p, t.(red := red))
    {
      ghost var v: View<RBNode<D>> := Table();
      PaintSpells(v, root, nil, p, t, red);
      x.isRed := red;
      assert Table() == v[x := v[x].(red := red)];
    }

    /** The pointer writes of a left rotation. */
    method RelinkLeft(x: RBNode<D>)
      requires nil !in nodes && x in nodes && x.right in nodes && x != x.right
      requires x.right.left == nil || (x.right.left in nodes && x.right.left != x && x.right.left != x.right && x.right.left != x.parent)
      requires x.parent == nil || (x.parent in nodes && x.parent != x && x.parent != x.right && (x.parent.left == x) != (x.parent.right == x))
      modifies this`root, nodes`left, nodes`right, nodes`parent
      ensures var y, b, q := old(x.right), old(x.right.left), old(x.parent);
        && root == (if q == nil then y else old(root))
        && x.Fields() == old(x.Fields()).(right := b, parent := y)
        && y.Fields() == old(y.Fields()).(left := x, parent := q)
        && (forall n :: n in nodes && n != x && n != y ==>
          n.Fields() == if n == b then old(n.Fields()).(parent := x)
            else if n == q then Relinked(old(n.Fields()), x, y)
            else old(n.Fields()))
    {
      var y := x.right;
      x.right := y.left;
      if y.left != nil {
        y.left.parent := x;
      }
      y.parent := x.parent;
      if x.parent == nil {
        root := y;
      } else if x == x.parent.left {
        x.parent.left := y;
      } else {
        x.parent.right := y;
      }
      y.left := x;
      x.parent := y;
    }

    method RelinkRight(x: RBNode<D>)
      requires nil !in nodes && x in nodes && x.left in nodes && x != x.left
      requires x.left.right == nil || (x.left.right in nodes && x.left.right != x && x.left.right != x.left && x.left.right != x.parent)
      requires x.parent == nil || (x.parent in nodes && x.parent != x && x.parent != x.left && (x.parent.left == x) != (x.parent.right == x))
      modifies this`root, nodes`left, nodes`right, nodes`parent
      ensures var y, b, q := old(x.left), old(x.left.right), old(x.parent);
        && root == (if q == nil then y else old(root))
        && x.Fields() == old(x.Fields()).(left := b, parent := y)
        && y.Fields() == old(y.Fields()).(right := x, parent := q)
        && (forall n :: n in nodes && n != x && n != y ==>
          n.Fields() == if n == b then old(n.Fields()).(parent := x)
            else if n == q then Relinked(old(n.Fields()), x, y)
            else old(n.Fields()))
    {
      var y := x.left;
      x.left := y.right;
      if y.right != nil {
        y.right.parent := x;
      }
      y.parent := x.parent;
      if x.parent == nil {
        root := y;
      } else if x == x.parent.right {
        x.parent.right := y;
      } else {
        x.parent.left := y;
      }
      y.right := x;
      x.parent := y;
    }

    method LeftRotateTable(x: RBNode<D>)
      requires CanRotateLeft(Table(), nil, x)
      modifies this`root, nodes`left, nodes`right, nodes`parent
      ensures Table() == RotatedLeft(old(Table()), nil, x)
      ensures root == if old(x.parent) == nil then old(x.right) else old(root)
    {
      ghost var v: View<RBNode<D>> := Table();
      assert v[x] == x.Fields() && v[x.right] == x.right.Fields();
      assert x.parent in nodes ==> v[x.parent] == x.parent.Fields();
      RelinkLeft(x);
      ghost var w: View<RBNode<D>> := RotatedLeft(v, nil, x);
      forall n | n in nodes ensures w[n] == n.Fields() {
        assert v[n] == old(n.Fields());
      }
      assert Table() == w;
    }

    method RightRotateTable(x: RBNode<D>)
      requires CanRotateRight(Table(), nil, x)
      modifies this`root, nodes`left, nodes`right, nodes`parent
      ensures Table() == RotatedRight(old(Table()), nil, x)
      ensures root == if old(x.parent) == nil then old(x.left) else old(root)
    {
      ghost var v: View<RBNode<D>> := Table();
      assert v[x] == x.Fields() && v[x.left] == x.left.Fields();
      assert x.parent in nodes ==> v[x.parent] == x.parent.Fields();
      RelinkRight(x);
      ghost var w: View<RBNode<D>> := RotatedRight(v, nil, x);
      forall n | n in nodes ensures w[n] == n.Fields() {
        assert v[n] == old(n.Fields());
      }
      assert Table() == w;
    }

    method LeftRotate(x: RBNode<D>, ghost p: Path<RBNode<D>>, ghost t: Tree<RBNode<D>>)
      requires t.Node? && t.n == x && t.right.Node? && Focused(p, t)
      modifies this`root, nodes`left, nodes`right, nodes`parent
      ensures Focused(p, LeftUp(t))
    {
      RotateLeftAllowed(Table(), root, nil, p, t);
      RotateLeftSpells(Table(), root, nil, p, t);
      LeftRotateTable(x);
    }

    method RightRotate(x: RBNode<D>, ghost p: Path<RBNode<D>>, ghost t: Tree<RBNode<D>>)
      requires t.Node? && t.n == x && t.left.Node? && Focused(p, t)
      modifies this`root, nodes`left, nodes`right, nodes`parent
      ensures Focused(p, RightUp(t))
    {
      RotateRightAllowed(Table(), root, nil, p, t);
      RotateRightSpells(Table(), root, nil, p, t);
      RightRotateTable(x);
    }

    /** The uncle is red: recolour and move the problem two levels up. */
    method PushUp(z: RBNode<D>, uncle: RBNode<D>, ghost p: Path<RBNode<D>>, ghost t: Tree<RBNode<D>>)
      returns (gp: RBNode<D>)
      requires Focused(p, t) && !p.Top? && !p.up.Top? && t.Node? && t.n == z
      requires Sibling(p.up).Node? && Sibling(p.up).n == uncle
      modifies nodes`isRed
      ensures Focused(p.up.up, PushedUp(p, t)) && PushedUp(p, t).n == gp
    {
      hide Spells;
      ghost var q, up, u := p.up, p.up.up, Sibling(p.up);
      ghost var t1 := Fill(p, t);
      Nearby(p, t);
      Up(p, t);
      Nearby(q, t1);
      Paint(z.parent, false, q, t1);
      ghost var t2, u2 := t1.(red := false), u.(red := false);
      Up(q, t2);
      Paint(uncle, false, Across(q, t2), u);
      ghost var q2 := Across(Across(q, t2), u2);
      Up(Across(q, t2), u2);
      Up(q2, t2);
      gp := z.parent.parent;
      Paint(gp, true, up, Fill(q2, t2));
    }

    /** An inner focus below a left child: turn it outwards. */
    method TurnLeft(x: RBNode<D>, ghost p: Path<RBNode<D>>, ghost t: Tree<RBNode<D>>)
      requires Focused(p, t) && p.InRight? && t.Node? && x == p.n
      modifies this`root, nodes`left, nodes`right, nodes`parent
      ensures Focused(TurnedPath(p, t), TurnedTree(p, t))
    {
      hide Spells;
      Up(p, t);
      LeftRotate(x, p.up, Fill(p, t));
      Down(p.up, LeftUp(Fill(p, t)));
    }

    method TurnRight(x: RBNode<D>, ghost p: Path<RBNode<D>>, ghost t: Tree<RBNode<D>>)
      requires Focused(p, t) && p.InLeft? && t.Node? && x == p.n
      modifies this`root, nodes`left, nodes`right, nodes`parent
      ensures Focused(TurnedPath(p, t), TurnedTree(p, t))
    {
      hide Spells;
      Up(p, t);
      RightRotate(x, p.up, Fill(p, t));
      Down(p.up, RightUp(Fill(p, t)));
    }

    /** An outer focus: recolour and rotate the grandparent. */
    method RaiseLeft(z: RBNode<D>, ghost p: Path<RBNode<D>>, ghost t: Tree<RBNode<D>>)
      requires Focused(p, t) && t.Node? && t.n == z && p.InLeft? && p.up.InLeft?
      modifies this`root, nodes`left, nodes`right, nodes`parent, nodes`isRed
      ensures Focused(RaisedPath(p), t)
    {
      hide Spells;
      ghost var t1 := Node(t, p.n, false, p.right);
      Nearby(p, t);
      Up(p, t);
      Nearby(p.up, Fill(p, t));
      Paint(z.parent, false, p.up, Fill(p, t));
      ghost var g := Fill(p.up, t1);
      Up(p.up, t1);
      Paint(z.parent.parent, true, p.up.up, g);
      RightRotate(z.parent.parent, p.up.up, g.(red := true));
      Down(p.up.up, RightUp(g.(red := true)));
    }

    method RaiseRight(z: RBNode<D>, ghost p: Path<RBNode<D>>, ghost t: Tree<RBNode<D>>)
      requires Focused(p, t) && t.Node? && t.n == z && p.InRight? && p.up.InRight?
      modifies this`root, nodes`left, nodes`right, nodes`parent, nodes`isRed
      ensures Focused(RaisedPath(p), t)
    {
      hide Spells;
      ghost var t1 := Node(p.left, p.n, false, t);
      Nearby(p, t);
      Up(p, t);
      Nearby(p.up, Fill(p, t));
      Paint(z.parent, false, p.up, Fill(p, t));
      ghost var g := Fill(p.up, t1);
      Up(p.up, t1);
      Paint(z.parent.parent, true, p.up.up, g);
      LeftRotate(z.parent.parent, p.up.up, g.(red := true));
      Down(p.up.up, LeftUp(g.(red := true)));
    }

    /** One turn of the insertion loop, the parent being a left child. */
    method InsertTurnLeft(z: RBNode<D>, ghost p: Path<RBNode<D>>, ghost t: Tree<RBNode<D>>, ghost h: int)
      returns (z': RBNode<D>, ghost p': Path<RBNode<D>>, ghost t': Tree<RBNode<D>>, ghost h': int)
      requires Focused(p, t) && t.Node? && t.n == z && RedFocus(p, t, h)
      requires !p.Top? && p.red && p.up.InLeft? && !nil.isRed
      modifies this`root, nodes`left, nodes`right, nodes`parent, nodes`isRed
      ensures Focused(p', t') && t'.Node? && t'.n == z' && RedFocus(p', t', h')
      ensures Inorder(Plug(p', t')) == Inorder(Plug(p, t))
      ensures p' == p.up.up || (!p'.Top? && !p'.red)
    {
      hide Spells;
      hide RedFocus;
      z', p', t', h' := z, p, t, h;
      Nearby(p, t);
      Up(p, t);
      Nearby(p.up, Fill(p, t));
      Uncle(p, t);
      var y := z.parent.parent.right;
      if y.isRed {
        PushedUpKeeps(p, t, h);
        z' := PushUp(z, y, p, t);
        p', t', h' := p.up.up, PushedUp(p, t), h + 1;
      } else {
        if z == z.parent.right {
          z' := z.parent;
          TurnLeft(z', p, t);
          TurnedKeeps(p, t, h);
          p', t' := TurnedPath(p, t), TurnedTree(p, t);
        }
        RaiseLeft(z', p', t');
        RaisedKeeps(p', t', h);
        p' := RaisedPath(p');
      }
    }

    method InsertTurnRight(z: RBNode<D>, ghost p: Path<RBNode<D>>, ghost t: Tree<RBNode<D>>, ghost h: int)
      returns (z': RBNode<D>, ghost p': Path<RBNode<D>>, ghost t': Tree<RBNode<D>>, ghost h': int)
      requires Focused(p, t) && t.Node? && t.n == z && RedFocus(p, t, h)
      requires !p.Top? && p.red && p.up.InRight? && !nil.isRed
      modifies this`root, nodes`left, nodes`right, nodes`parent, nodes`isRed
      ensures Focused(p', t') && t'.Node? && t'.n == z' && RedFocus(p', t', h')
      ensures Inorder(Plug(p', t')) == Inorder(Plug(p, t))
      ensures p' == p.up.up || (!p'.Top? && !p'.red)
    {
      hide Spells;
      hide RedFocus;
      z', p', t', h' := z, p, t, h;
      Nearby(p, t);
      Up(p, t);
      Nearby(p.up, Fill(p, t));
      Uncle(p, t);
      var y := z.parent.parent.left;
      if y.isRed {
        PushedUpKeeps(p, t, h);
        z' := PushUp(z, y, p, t);
        p', t', h' := p.up.up, PushedUp(p, t), h + 1;
      } else {
        if z == z.parent.left {
          z' := z.parent;
          TurnRight(z', p, t);
          TurnedKeeps(p, t, h);
          p', t' := TurnedPath(p, t), TurnedTree(p, t);
        }
        RaiseRight(z', p', t');
        RaisedKeeps(p', t', h);
        p' := RaisedPath(p');
      }
    }

    lemma Uncle(p: Path<RBNode<D>>, t: Tree<RBNode<D>>)
      requires Focused(p, t) && !p.Top? && !p.up.Top?
      ensures Sibling(p.up).Node? ==> Sibling(p.up).n in nodes && Sibling(p.up).n.isRed == Red(Sibling(p.up))
    {
      Up(p, t);
      Up(p.up, Fill(p, t));
      Nearby(Across(p.up, Fill(p, t)), Sibling(p.up));
    }

    method InsertFixup(z0: RBNode<D>, ghost p0: Path<RBNode<D>>, ghost t0: Tree<RBNode<D>>, ghost h0: int)
      requires Focused(p0, t0) && t0.Node? && t0.n == z0 && RedFocus(p0, t0, h0) && !nil.isRed
      modifies this`root, this`tree, nodes`left, nodes`right, nodes`parent, nodes`isRed
      ensures Focused(Top, tree) && (exists k :: Balanced(tree, k))
      ensures Inorder(tree) == Inorder(Plug(p0, t0))
    {
      hide Spells;
      hide RedFocus;
      var z := z0;
      ghost var p, t, h := p0, t0, h0;
      Nearby(p, t);
      while z.parent.isRed
        invariant Focused(p, t) && t.Node? && t.n == z && RedFocus(p, t, h)
        invariant z.parent.isRed == (!p.Top? && p.red)
        invariant Inorder(Plug(p, t)) == Inorder(Plug(p0, t0))
        decreases if p.Top? || !p.red then 0 else 1 + Steps(p)
      {
        RedFocusParent(p, t, h);
        Outward(p, t);
        if z.parent == z.parent.parent.left {
          z, p, t, h := InsertTurnLeft(z, p, t, h);
        } else {
          z, p, t, h := InsertTurnRight(z, p, t, h);
        }
        Nearby(p, t);
      }
      BlackenRoot(p, t, h);
    }

    /** Which child the parent of the focus is. */
    lemma Outward(p: Path<RBNode<D>>, t: Tree<RBNode<D>>)
      requires Focused(p, t) && t.Node? && !p.Top? && !p.up.Top?
      ensures t.n in nodes && t.n.parent == p.n && p.n in nodes && p.n.parent == p.up.n && p.up.n in nodes
      ensures p.up.InLeft? <==> p.n == p.up.n.left
    {
      hide Spells;
      Nearby(p, t);
      Up(p, t);
      Nearby(p.up, Fill(p, t));
    }

    method BlackenRoot(ghost p: Path<RBNode<D>>, ghost t: Tree<RBNode<D>>, ghost h: int)
      requires Focused(p, t) && RedFocus(p, t, h) && (p.Top? || !p.red)
      modifies this`tree, nodes`isRed
      ensures Focused(Top, tree) && (exists k :: Balanced(tree, k))
      ensures Inorder(tree) == Inorder(Plug(p, t))
    {
      hide Spells;
      ghost var k := RedFocusDone(p, t, h);
      Zoom(p, t);
      tree := Plug(p, t);
      Nearby(Top, tree);
      Paint(root, false, Top, tree);
      tree := tree.(red := false);
      assert Balanced(tree, k);
    }

    method Insert(key: string, data: Option<D>) returns (node: RBNode<D>)
      requires Valid()
      modifies this, nodes`left, nodes`right, nodes`parent, nodes`isRed
      ensures Valid() && fresh(node) && node.key == key && node.data == data
      ensures nodes == old(nodes) + {node}
      ensures exists k :: InsertedAt(Inorder(old(tree)), Inorder(tree), node, k)
    {
      node := new RBNode(key, data, true);
      InsertNode(node);
    }

    method InsertNode(node: RBNode<D>)
      requires Valid() && node !in nodes && node != nil
      modifies this, nodes`left, nodes`right, nodes`parent, nodes`isRed, node`left, node`right, node`parent, node`isRed
      ensures Valid()
      ensures nodes == old(nodes) + {node}
      ensures exists k :: InsertedAt(Inorder(old(tree)), Inorder(tree), node, k)
    {
      hide Spells;
      hide Balanced;
      var x := root;
      var y := nil;
      ghost var p: Path<RBNode<D>>, t := Top, tree;
      Nearby(p, t);
      while x != nil
        invariant Focused(p, t) && Plug(p, t) == tree
        invariant x == RootOf(t, nil) && y == HoleParent(p, nil)
        invariant p.InLeft? ==> Compare(node.key, y.key) < 0
        invariant p.InRight? ==> Compare(node.key, y.key) >= 0
        invariant Between(Before(p), node.key, After(p))
        modifies {}
        decreases t
      {
        Nearby(p, t);
        Down(p, t);
        InorderPlug(p, t);
        SearchStep(Before(p), Inorder(t.left), t.n, Inorder(t.right), After(p), node.key);
        y := x;
        if Compare(node.key, x.key) < 0 {
          p, t := InLeft(p, t.n, t.red, t.right), t.left;
        } else {
          p, t := InRight(p, t.n, t.red, t.left), t.right;
        }
        x := if Compare(node.key, x.key) < 0 then x.left else x.right;
      }
      Nearby(p, t);
      ghost var k :| Balanced(tree, k);
      ghost var h := LeafFocus(p, node, k);
      Hang(node, y, p);
      SortedInsert(Before(p), node, After(p));
      InsertFixup(node, p, Node(Leaf, node, true, Leaf), h);
      assert InsertedAt(Before(p) + After(p), Inorder(tree), node, |Before(p)|);
    }

    /** The leaf's own pointers and its parent's link to it. */
    method HangPointers(node: RBNode<D>, y: RBNode<D>)
      requires node !in nodes && node != nil && nil !in nodes && (y == nil || y in nodes)
      modifies this`root, this`nodes, nodes`left, nodes`right, node`left, node`right, node`parent, node`isRed
      ensures nodes == old(nodes) + {node} && root == (if y == nil then node else old(root))
      ensures node.Fields() == Links(nil, nil, y, true)
      ensures forall n :: n in old(nodes) ==>
        n.Fields() == if n != y then old(n.Fields())
                      else if Compare(node.key, y.key) < 0 then old(n.Fields()).(left := node)
                      else old(n.Fields()).(right := node)
    {
      node.parent := y;
      if y == nil {
        root := node;
      } else if Compare(node.key, y.key) < 0 {
        y.left := node;
      } else {
        y.right := node;
      }
      node.left := nil;
      node.right := nil;
      node.isRed := true;
      nodes := nodes + {node};
    }

    method Hang(node: RBNode<D>, y: RBNode<D>, ghost p: Path<RBNode<D>>)
      requires Focused(p, Leaf) && node !in nodes && node != nil && y == HoleParent(p, nil)
      requires p.InLeft? ==> Compare(node.key, y.key) < 0
      requires p.InRight? ==> Compare(node.key, y.key) >= 0
      modifies this`root, this`nodes, nodes`left, nodes`right, node`left, node`right, node`parent, node`isRed
      ensures nodes == old(nodes) + {node}
      ensures Focused(p, Node(Leaf, node, true, Leaf))
    {
      hide Spells, Compare;
      ghost var v: View<RBNode<D>> := Table();
      Nearby(p, Leaf);
      HangPointers(node, y);
      assert Attached(v, Table(), nil, p, node);
      AttachSpells(v, Table(), old(root), nil, p, node);
    }

    /** x is the focus; an empty focus is found through the sentinel's parent field. */
    ghost predicate At(x: RBNode<D>, p: Path<RBNode<D>>, t: Tree<RBNode<D>>)
      reads nil
    {
      x == RootOf(t, nil) && (t.Leaf? && !p.Top? ==> nil.parent == p.n)
    }

    lemma Nephews(p: Path<RBNode<D>>, t: Tree<RBNode<D>>)
      requires Focused(p, t) && !p.Top? && Sibling(p).Node? && !nil.isRed
      ensures var s := Sibling(p);
        && ReadsAs(s.n, RootOf(s.left, nil), RootOf(s.right, nil), p.n, s.red)
        && s.n.left.isRed == Red(s.left) && s.n.right.isRed == Red(s.right)
    {
      hide Spells;
      var s, q := Sibling(p), Across(p, t);
      Up(p, t);
      Nearby(q, s);
      Down(q, s);
      Nearby(InLeft(q, s.n, s.red, s.right), s.left);
      Nearby(InRight(q, s.n, s.red, s.left), s.right);
    }

    /** Where the loop stands: the parent, which child x is, and the sibling. */
    lemma ShortNearby(x: RBNode<D>, p: Path<RBNode<D>>, t: Tree<RBNode<D>>, h: int)
      requires Focused(p, t) && At(x, p, t) && ShortFocus(p, t, h) && !p.Top? && !nil.isRed
      ensures x.parent == p.n && p.n in nodes && p.n.isRed == p.red && x.isRed == Red(t)
      ensures Sibling(p).Node? && (x == p.n.left <==> p.InLeft?)
      ensures (if p.InLeft? then p.n.right else p.n.left) == Sibling(p).n
      ensures Sibling(p).n in nodes && Sibling(p).n.isRed == Red(Sibling(p))
    {
      hide Spells;
      ShortSibling(p, t, h);
      Nearby(p, t);
      Nephews(p, t);
    }

    method LowerLeft(x: RBNode<D>, w: RBNode<D>, ghost p: Path<RBNode<D>>, ghost t: Tree<RBNode<D>>)
      requires Focused(p, t) && At(x, p, t) && p.InLeft? && p.right.Node? && p.right.n == w && p.n == x.parent
      modifies this`root, nodes`left, nodes`right, nodes`parent, nodes`isRed
      ensures Focused(LoweredPath(p), t)
    {
      hide Spells;
      ghost var f := Node(t, p.n, true, p.right.(red := false));
      Up(p, t);
      Paint(w, false, Across(p, t), p.right);
      Up(Across(p, t), p.right.(red := false));
      Nearby(p.up, f.(red := p.red));
      Paint(x.parent, true, p.up, f.(red := p.red));
      LeftRotate(x.parent, p.up, f);
      Down(p.up, LeftUp(f));
      Down(InLeft(p.up, w, false, p.right.right), LeftUp(f).left);
    }

    method LowerRight(x: RBNode<D>, w: RBNode<D>, ghost p: Path<RBNode<D>>, ghost t: Tree<RBNode<D>>)
      requires Focused(p, t) && At(x, p, t) && p.InRight? && p.left.Node? && p.left.n == w && p.n == x.parent
      modifies this`root, nodes`left, nodes`right, nodes`parent, nodes`isRed
      ensures Focused(LoweredPath(p), t)
    {
      hide Spells;
      ghost var f := Node(p.left.(red := false), p.n, true, t);
      Up(p, t);
      Paint(w, false, Across(p, t), p.left);
      Up(Across(p, t), p.left.(red := false));
      Nearby(p.up, f.(red := p.red));
      Paint(x.parent, true, p.up, f.(red := p.red));
      RightRotate(x.parent, p.up, f);
      Down(p.up, RightUp(f));
      Down(InRight(p.up, w, false, p.left.left), RightUp(f).right);
    }

    method RaiseNephewLeft(w: RBNode<D>, ghost p: Path<RBNode<D>>, ghost t: Tree<RBNode<D>>)
      requires Focused(p, t) && p.InLeft? && Sibling(p).Node? && Sibling(p).n == w && Inner(p).Node?
      modifies this`root, nodes`left, nodes`right, nodes`parent, nodes`isRed
      ensures Focused(NephewRaised(p), t)
    {
      hide Spells;
      ghost var q, s, i := Across(p, t), Sibling(p), Inner(p);
      Up(p, t);
      Nearby(q, s);
      Down(q, s);
      Paint(w.left, false, InLeft(q, s.n, s.red, s.right), i);
      ghost var s1 := s.(left := i.(red := false));
      Down(q, s1);
      Paint(w, true, q, s1);
      RightRotate(w, q, s1.(red := true));
      Up(q, RightUp(s1.(red := true)));
    }

    method RaiseNephewRight(w: RBNode<D>, ghost p: Path<RBNode<D>>, ghost t: Tree<RBNode<D>>)
      requires Focused(p, t) && p.InRight? && Sibling(p).Node? && Sibling(p).n == w && Inner(p).Node?
      modifies this`root, nodes`left, nodes`right, nodes`parent, nodes`isRed
      ensures Focused(NephewRaised(p), t)
    {
      hide Spells;
      ghost var q, s, i := Across(p, t), Sibling(p), Inner(p);
      Up(p, t);
      Nearby(q, s);
      Down(q, s);
      Paint(w.right, false, InRight(q, s.n, s.red, s.left), i);
      ghost var s1 := s.(right := i.(red := false));
      Down(q, s1);
      Paint(w, true, q, s1);
      LeftRotate(w, q, s1.(red := true));
      Up(q, LeftUp(s1.(red := true)));
    }

    method MakeUpLeft(x: RBNode<D>, w: RBNode<D>, ghost p: Path<RBNode<D>>, ghost t: Tree<RBNode<D>>)
      requires Focused(p, t) && At(x, p, t) && p.InLeft? && p.n == x.parent && p.n.isRed == p.red
      requires Sibling(p).Node? && Sibling(p).n == w && Outer(p).Node? && w.right == Outer(p).n
      modifies this`root, nodes`left, nodes`right, nodes`parent, nodes`isRed
      ensures Focused(p.up, MadeUp(p, t))
    {
      hide Spells;
      ghost var q, s, o := Across(p, t), Sibling(p), Outer(p);
      Up(p, t);
      Paint(w, x.parent.isRed, q, s);
      ghost var s1 := s.(red := p.red);
      Up(q, s1);
      ghost var f := Node(t, p.n, p.red, s1);
      Nearby(p.up, f);
      Paint(x.parent, false, p.up, f);
      ghost var f1 := f.(red := false);
      Down(p.up, f1);
      ghost var q1 := InRight(p.up, p.n, false, t);
      Down(q1, s1);
      Paint(w.right, false, InRight(q1, s.n, p.red, s.left), o);
      ghost var s2 := s1.(right := o.(red := false));
      Down(q1, s2);
      Down(p.up, f1.(right := s2));
      LeftRotate(x.parent, p.up, f1.(right := s2));
    }

    method MakeUpRight(x: RBNode<D>, w: RBNode<D>, ghost p: Path<RBNode<D>>, ghost t: Tree<RBNode<D>>)
      requires Focused(p, t) && At(x, p, t) && p.InRight? && p.n == x.parent && p.n.isRed == p.red
      requires Sibling(p).Node? && Sibling(p).n == w && Outer(p).Node? && w.left == Outer(p).n
      modifies this`root, nodes`left, nodes`right, nodes`parent, nodes`isRed
      ensures Focused(p.up, MadeUp(p, t))
    {
      hide Spells;
      ghost var q, s, o := Across(p, t), Sibling(p), Outer(p);
      Up(p, t);
      Paint(w, x.parent.isRed, q, s);
      ghost var s1 := s.(red := p.red);
      Up(q, s1);
      ghost var f := Node(s1, p.n, p.red, t);
      Nearby(p.up, f);
      Paint(x.parent, false, p.up, f);
      ghost var f1 := f.(red := false);
      Down(p.up, f1);
      ghost var q1 := InLeft(p.up, p.n, false, t);
      Down(q1, s1);
      Paint(w.left, false, InLeft(q1, s.n, p.red, s.right), o);
      ghost var s2 := s1.(left := o.(red := false));
      Down(q1, s2);
      Down(p.up, f1.(left := s2));
      RightRotate(x.parent, p.up, f1.(left := s2));
    }

    /** The sibling and both nephews are black. */
    method RedSibling(x: RBNode<D>, w: RBNode<D>, ghost p: Path<RBNode<D>>, ghost t: Tree<RBNode<D>>)
      returns (x': RBNode<D>, ghost t': Tree<RBNode<D>>)
      requires Focused(p, t) && At(x, p, t) && !p.Top? && p.n == x.parent && Sibling(p).Node? && Sibling(p).n == w
      modifies nodes`isRed
      ensures t' == Fill(WithSibling(p, Sibling(p).(red := true)), t)
      ensures Focused(p.up, t') && At(x', p.up, t')
    {
      hide Spells;
      Up(p, t);
      Paint(w, true, Across(p, t), Sibling(p));
      Up(Across(p, t), Sibling(p).(red := true));
      x' := x.parent;
      t' := Fill(WithSibling(p, Sibling(p).(red := true)), t);
    }

    method DeleteTurnLeft(x: RBNode<D>, ghost p0: Path<RBNode<D>>, ghost t: Tree<RBNode<D>>, ghost h: int)
      returns (x': RBNode<D>, ghost p': Path<RBNode<D>>, ghost t': Tree<RBNode<D>>, ghost h': int)
      requires Focused(p0, t) && At(x, p0, t) && ShortFocus(p0, t, h) && !Red(t) && p0.InLeft? && !nil.isRed
      modifies this`root, nodes`left, nodes`right, nodes`parent, nodes`isRed
      ensures Focused(p', t') && At(x', p', t') && ShortFocus(p', t', h')
      ensures Inorder(Plug(p', t')) == Inorder(Plug(p0, t))
      ensures p' == p0.up || p'.Top? || Red(t')
    {
      hide Spells;
      hide ShortFocus;
      ghost var p := p0;
      Nearby(p, t);
      ShortNearby(x, p, t, h);
      var w := x.parent.right;
      if w.isRed {
        LoweredKeeps(p, t, h);
        LowerLeft(x, w, p, t);
        p := LoweredPath(p);
        ShortNearby(x, p, t, h);
        w := x.parent.right;
      }
      Nephews(p, t);
      if !w.left.isRed && !w.right.isRed {
        ReddenedKeeps(p, t, h);
        x', t' := RedSibling(x, w, p, t);
        p', h' := p.up, if p.red then h else h + 1;
      } else {
        if !w.right.isRed {
          NephewRaisedKeeps(p, t, h);
          RaiseNephewLeft(w, p, t);
          p := NephewRaised(p);
          ShortNearby(x, p, t, h);
          Nephews(p, t);
          w := x.parent.right;
        }
        h' := MadeUpKeeps(p, t, h);
        MakeUpLeft(x, w, p, t);
        t' := Plug(p.up, MadeUp(p, t));
        p' := Top;
        Zoom(p.up, MadeUp(p, t));
        x' := root;
        Nearby(Top, t');
      }
    }

    method DeleteTurnRight(x: RBNode<D>, ghost p0: Path<RBNode<D>>, ghost t: Tree<RBNode<D>>, ghost h: int)
      returns (x': RBNode<D>, ghost p': Path<RBNode<D>>, ghost t': Tree<RBNode<D>>, ghost h': int)
      requires Focused(p0, t) && At(x, p0, t) && ShortFocus(p0, t, h) && !Red(t) && p0.InRight? && !nil.isRed
      modifies this`root, nodes`left, nodes`right, nodes`parent, nodes`isRed
      ensures Focused(p', t') && At(x', p', t') && ShortFocus(p', t', h')
      ensures Inorder(Plug(p', t')) == Inorder(Plug(p0, t))
      ensures p' == p0.up || p'.Top? || Red(t')
    {
      hide Spells;
      hide ShortFocus;
      ghost var p := p0;
      Nearby(p, t);
      ShortNearby(x, p, t, h);
      var w := x.parent.left;
      if w.isRed {
        LoweredKeeps(p, t, h);
        LowerRight(x, w, p, t);
        p := LoweredPath(p);
        ShortNearby(x, p, t, h);
        w := x.parent.left;
      }
      Nephews(p, t);
      if !w.right.isRed && !w.left.isRed {
        ReddenedKeeps(p, t, h);
        x', t' := RedSibling(x, w, p, t);
        p', h' := p.up, if p.red then h else h + 1;
      } else {
        if !w.left.isRed {
          NephewRaisedKeeps(p, t, h);
          RaiseNephewRight(w, p, t);
          p := NephewRaised(p);
          ShortNearby(x, p, t, h);
          Nephews(p, t);
          w := x.parent.left;
        }
        h' := MadeUpKeeps(p, t, h);
        MakeUpRight(x, w, p, t);
        t' := Plug(p.up, MadeUp(p, t));
        p' := Top;
        Zoom(p.up, MadeUp(p, t));
        x' := root;
        Nearby(Top, t');
      }
    }

    method DeleteFixup(x0: RBNode<D>, ghost p0: Path<RBNode<D>>, ghost t0: Tree<RBNode<D>>, ghost h0: int)
      requires Focused(p0, t0) && At(x0, p0, t0) && ShortFocus(p0, t0, h0) && !nil.isRed
      modifies this`root, this`tree, nodes`left, nodes`right, nodes`parent, nodes`isRed, nil`isRed
      ensures Focused(Top, tree) && (exists k :: Balanced(tree, k)) && !nil.isRed
      ensures Inorder(tree) == Inorder(Plug(p0, t0))
    {
      hide Spells;
      hide ShortFocus;
      var x := x0;
      ghost var p, t, h := p0, t0, h0;
      Nearby(p, t);
      AtRoot(x, p, t);
      while x != root && !x.isRed
        invariant Focused(p, t) && At(x, p, t) && ShortFocus(p, t, h) && !nil.isRed
        invariant x == root <==> p.Top?
        invariant x.isRed == Red(t)
        invariant Inorder(Plug(p, t)) == Inorder(Plug(p0, t0))
        decreases if p.Top? || Red(t) then 0 else 1 + Steps(p)
      {
        ShortNearby(x, p, t, h);
        if x == x.parent.left {
          x, p, t, h := DeleteTurnLeft(x, p, t, h);
        } else {
          x, p, t, h := DeleteTurnRight(x, p, t, h);
        }
        AtRoot(x, p, t);
      }
      BlackenFocus(x, p, t, h);
    }

    lemma AtRoot(x: RBNode<D>, p: Path<RBNode<D>>, t: Tree<RBNode<D>>)
      requires Focused(p, t) && At(x, p, t) && !nil.isRed
      ensures x == root <==> p.Top?
      ensures x.isRed == Red(t)
    {
      Nearby(p, t);
      if !p.Top? { PathRootInside(p, RootOf(t, nil)); }
      if t.Node? { assert t.n in Nodes(t); }
    }

    method BlackenFocus(x: RBNode<D>, ghost p: Path<RBNode<D>>, ghost t: Tree<RBNode<D>>, ghost h: int)
      requires Focused(p, t) && At(x, p, t) && ShortFocus(p, t, h) && (p.Top? || Red(t)) && !nil.isRed
      modifies this`tree, nodes`isRed, nil`isRed
      ensures Focused(Top, tree) && (exists k :: Balanced(tree, k)) && !nil.isRed
      ensures Inorder(tree) == Inorder(Plug(p, t))
    {
      hide Spells;
      ghost var k := ShortFocusDone(p, t, h);
      Nearby(p, t);
      if x == nil {
        x.isRed := false;
      } else {
        Paint(x, false, p, t);
      }
      tree := Plug(p, Blackened(t));
      Zoom(p, Blackened(t));
      assert Balanced(tree, k);
    }

    method Transplant(u: RBNode<D>, v: RBNode<D>)
      requires u != v && u != nil
      requires u.parent != nil ==> u.parent != v && u.parent != u && (u.parent.left == u || u.parent.right == u)
      modifies this`root, v`parent
      modifies (if u.parent == nil then {} else {u.parent})`left
      modifies (if u.parent == nil then {} else {u.parent})`right
      ensures old(u.parent) == nil ==> root == v
      ensures old(u.parent) != nil ==> root == old(root)
      ensures old(u.parent) != nil ==> old(u.parent).left == if old(u.parent.left) == u then v else old(u.parent.left)
      ensures old(u.parent) != nil ==> old(u.parent).right == if old(u.parent.left) == u then old(u.parent.right) else v
      ensures v.parent == old(u.parent)
    {
      if u.parent == nil {
        root := v;
      } else if u == u.parent.left {
        u.parent.left := v;
      } else {
        u.parent.right := v;
      }
      v.parent := u.parent;
    }

    /** The table's CanSwapOut, read off the fields. */
    ghost predicate Swappable(z: RBNode<D>, y: RBNode<D>)
      reads this`nodes, nodes
    {
      && nil !in nodes && z in nodes && y in nodes && y != z && y.left == nil
      && var x, yp, zl, zr, zp := y.right, y.parent, z.left, z.right, z.parent;
      && (x == nil || (x in nodes && x !in {y, z, yp, zl, zr, zp}))
      && zl in nodes && zr in nodes && zl !in {z, y, yp, zr, zp} && zr !in {z, zp}
      && (zp == nil || (zp in nodes && zp !in {z, y, yp} && (zp.left == z || zp.right == z)))
      && (if yp == z then zr == y else yp in nodes && yp != y && zr != y && yp.left == y && yp != zp)
    }

    /** Putting y, cut out of its own place, where z was. */
    method SwapOut(z: RBNode<D>, y: RBNode<D>)
      requires Swappable(z, y)
      modifies this`root, nodes`left, nodes`right, nodes`parent, nodes`isRed, nil`parent
      ensures var x, yp, zl, zr, zp := old(y.right), old(y.parent), old(z.left), old(z.right), old(z.parent);
        && root == (if zp == nil then y else old(root))
        && y.left == zl && y.right == (if yp == z then x else zr) && y.parent == zp && y.isRed == old(z.isRed)
        && x.parent == (if yp == z then y else yp)
        && (forall n :: n in nodes && n != z && n != y ==>
          n.Fields() == if n == zl then old(n.Fields()).(parent := y)
            else if n == zp then Relinked(old(n.Fields()), z, y)
            else if n == x then old(n.Fields()).(parent := if yp == z then y else yp)
            else if n == zr then (if n == yp then old(n.Fields()).(left := x, parent := y) else old(n.Fields()).(parent := y))
            else if n == yp then old(n.Fields()).(left := x)
            else old(n.Fields()))
    {
      var x := y.right;
      if y.parent == z {
        x.parent := y;
      } else {
        Transplant(y, y.right);
        y.right := z.right;
        y.right.parent := y;
      }
      Transplant(z, y);
      y.left := z.left;
      y.left.parent := y;
      y.isRed := z.isRed;
    }

    method SwapOutTable(z: RBNode<D>, y: RBNode<D>)
      requires CanSwapOut(Table(), nil, z, y)
      modifies this`root, this`nodes, nodes`left, nodes`right, nodes`parent, nodes`isRed, nil`parent
      ensures nodes == old(nodes) - {z}
      ensures CanSwapOut(old(Table()), nil, z, y) && SwappedOut(old(Table()), Table(), nil, z, y)
      ensures root == if old(z.parent) == nil then y else old(root)
      ensures old(y.right).parent == if old(y.parent) == z then y else old(y.parent)
    {
      ghost var v: View<RBNode<D>> := Table();
      assert v[z] == z.Fields() && v[y] == y.Fields();
      assert z.parent in nodes ==> v[z.parent] == z.parent.Fields();
      assert y.parent in nodes ==> v[y.parent] == y.parent.Fields();
      SwapOut(z, y);
      nodes := nodes - {z};
      forall n | n in nodes ensures Table()[n] == n.Fields() && v[n] == old(n.Fields()) {
      }
    }

    method SwapOutAt(z: RBNode<D>, y: RBNode<D>, ghost p: Path<RBNode<D>>, ghost t: Tree<RBNode<D>>,
                     ghost q: Path<RBNode<D>>, ghost s: Tree<RBNode<D>>)
      requires AboveSuccessor(Table(), root, nil, p, t, q, s) && t.n == z && s.n == y
      modifies this`root, this`nodes, nodes`left, nodes`right, nodes`parent, nodes`isRed, nil`parent
      ensures nodes == old(nodes) - {z}
      ensures Focused(Concat(q, InRight(p, y, t.red, t.left)), s.right)
      ensures At(old(y.right), Concat(q, InRight(p, y, t.red, t.left)), s.right)
    {
      hide Spells;
      ghost var v: View<RBNode<D>> := Table();
      AboveSuccessorFocus(v, root, nil, p, t, q, s);
      Nearby(Concat(q, InRight(p, z, t.red, t.left)), s);
      Nearby(p, t);
      SwapOutAllowed(v, root, nil, p, t, q, s);
      SwapOutTable(z, y);
      SwapOutSpells(v, Table(), old(root), nil, p, t, q, s);
    }

    method SpliceTable(z: RBNode<D>, x: RBNode<D>, ghost p: Path<RBNode<D>>)
      requires nil !in nodes && z in nodes && z != x && (x == nil || x in nodes) && z.parent == HoleParent(p, nil)
      requires !p.Top? ==> p.n in nodes && p.n != z && p.n != x && (p.n.left == z <==> p.InLeft?) && (p.n.right == z <==> p.InRight?)
      modifies this`root, this`nodes, nodes`left, nodes`right, nodes`parent, nil`parent
      ensures nodes == old(nodes) - {z} && Spliced(old(Table()), Table(), nil, p, z, x)
      ensures root == (if p.Top? then x else old(root)) && x.parent == HoleParent(p, nil)
    {
      Transplant(z, x);
      nodes := nodes - {z};
    }

    /** Putting the only child x of z where z was. */
    method SpliceAt(z: RBNode<D>, x: RBNode<D>, ghost p: Path<RBNode<D>>, ghost t: Tree<RBNode<D>>, ghost c: Tree<RBNode<D>>)
      requires Focused(p, t) && t.Node? && t.n == z && x == RootOf(c, nil)
      requires (t.left.Leaf? && c == t.right) || (t.right.Leaf? && c == t.left)
      modifies this`root, this`nodes, nodes`left, nodes`right, nodes`parent, nil`parent
      ensures nodes == old(nodes) - {z}
      ensures Focused(p, c) && At(x, p, c)
    {
      hide Spells;
      ghost var v: View<RBNode<D>> := Table();
      Nearby(p, t);
      SpliceAllowed(v, root, nil, p, t, c);
      assert v[z] == z.Fields();
      assert !p.Top? ==> v[p.n] == p.n.Fields();
      SpliceTable(z, x, p);
      SpliceSpells(v, Table(), old(root), nil, p, t, c);
    }

    /** The leftmost node of the subtree at node, reached along q; none for no subtree. */
    method Minimum(node: RBNode?<D>, ghost p: Path<RBNode<D>>, ghost t: Tree<RBNode<D>>)
      returns (x: RBNode?<D>, ghost q: Path<RBNode<D>>, ghost s: Tree<RBNode<D>>)
      requires node != null && node != nil ==> Focused(p, t) && t.Node? && t.n == node
      ensures x == null <==> node == null || node == nil
      ensures x != null ==> Plug(q, s) == t && LeftOnly(q) && s.Node? && s.left.Leaf? && s.n == x
      ensures x != null ==> x in nodes && x.isRed == s.red && x.right == RootOf(s.right, nil)
    {
      hide Spells;
      x, q, s := node, Top, t;
      if node == nil || node == null {
        return null, q, s;
      }
      Nearby(p, t);
      while x.left != nil
        invariant x != null && Plug(q, s) == t && LeftOnly(q) && s.Node? && s.n == x
        invariant Focused(Concat(q, p), s)
        invariant ReadsAs(x, RootOf(s.left, nil), RootOf(s.right, nil), HoleParent(Concat(q, p), nil), s.red)
        modifies {}
        decreases s
      {
        Down(Concat(q, p), s);
        x, q, s := x.left, InLeft(q, s.n, s.red, s.right), s.left;
        Nearby(Concat(q, p), s);
      }
      Nearby(Concat(q, p), s);
    }

    /** The next node in the order of the tree, and the sentinel after the last one; none for no node. */
    method Successor(node: RBNode?<D>) returns (y: RBNode?<D>, ghost k: nat)
      requires Valid() && (node != null && node != nil ==> node in nodes)
      ensures node == null || node == nil ==> y == null
      ensures node != null && node != nil ==> k < |Inorder(tree)| && Inorder(tree)[k] == node
      ensures node != null && node != nil ==> y == if k + 1 < |Inorder(tree)| then Inorder(tree)[k + 1] else nil
    {
      hide Spells;
      if node == nil || node == null {
        return null, 0;
      }
      Nearby(Top, tree);
      ghost var p, t := FocusOn(tree, node);
      Zoom(p, t);
      Nearby(p, t);
      Down(p, t);
      InorderPlug(p, t);
      k := |Before(p)| + |Inorder(t.left)|;
      assert Inorder(tree)[k..] == [node] + (Inorder(t.right) + After(p));
      if node.right != nil {
        ghost var q, s;
        y, q, s := Minimum(node.right, InRight(p, t.n, t.red, t.left), t.right);
        LeftmostOrder(q, s);
        return;
      }
      y := NextAbove(node, p, t);
    }

    /** The nearest node above that the subtree lies to the left of: the first in order after it. */
    method NextAbove(node: RBNode<D>, ghost p: Path<RBNode<D>>, ghost t: Tree<RBNode<D>>) returns (y: RBNode<D>)
      requires Focused(p, t) && t.Node? && t.n == node
      ensures y == if After(p) == [] then nil else After(p)[0]
    {
      hide Spells;
      Nearby(p, t);
      var x := node;
      y := node.parent;
      ghost var q, u := p, t;
      while y != nil && x == y.right
        invariant Focused(q, u) && u.Node? && x == u.n && y == HoleParent(q, nil) && After(q) == After(p)
        modifies {}
        decreases Steps(q)
      {
        Nearby(q, u);
        Up(q, u);
        x, u, q := y, Fill(q, u), q.up;
        Nearby(q, u);
        y := y.parent;
      }
      Nearby(q, u);
    }

    method Delete(z: RBNode<D>)
      requires Valid() && z in nodes
      modifies this, nodes`left, nodes`right, nodes`parent, nodes`isRed, nil`parent, nil`isRed
      ensures Valid()
      ensures nodes == old(nodes) - {z}
      ensures exists k :: RemovedAt(Inorder(old(tree)), Inorder(tree), z, k)
    {
      hide Spells;
      Nearby(Top, tree);
      ghost var p, t := FocusOn(tree, z);
      Zoom(p, t);
      Nearby(p, t);
      ghost var b, a, h;
      ghost var p', c := p, t;
      var x := nil;
      var yOriginalRed := z.isRed;
      if z.left == nil || z.right == nil {
        x, c, h, b, a := DeleteHalf(z, p, t);
      } else {
        yOriginalRed, x, p', c, h, b, a := DeleteFull(z, p, t);
      }
      SortedRemove(b, z, a);
      FinishDelete(x, yOriginalRed, p', c, h);
      assert RemovedAt(Inorder(old(tree)), Inorder(tree), z, |b|);
    }

    method FinishDelete(x: RBNode<D>, yOriginalRed: bool, ghost p: Path<RBNode<D>>, ghost c: Tree<RBNode<D>>, ghost h: int)
      requires Focused(p, c) && At(x, p, c) && !nil.isRed
      requires if yOriginalRed then Balanced(Plug(p, c), h) else ShortFocus(p, c, h)
      modifies this`root, this`tree, nodes`left, nodes`right, nodes`parent, nodes`isRed, nil`isRed
      ensures Focused(Top, tree) && (exists k :: Balanced(tree, k)) && !nil.isRed
      ensures Inorder(tree) == Inorder(Plug(p, c))
    {
      hide Spells;
      if !yOriginalRed {
        DeleteFixup(x, p, c, h);
      } else {
        tree := Plug(p, c);
        Zoom(p, c);
        assert Balanced(tree, h);
      }
    }

    /** At most one child. */
    method DeleteHalf(z: RBNode<D>, ghost p: Path<RBNode<D>>, ghost t: Tree<RBNode<D>>)
      returns (x: RBNode<D>, ghost c: Tree<RBNode<D>>, ghost h: int, ghost b: seq<RBNode<D>>, ghost a: seq<RBNode<D>>)
      requires Focused(p, t) && t.Node? && t.n == z && Plug(p, t) == tree && (exists k :: Balanced(tree, k))
      requires z.left == nil || z.right == nil
      modifies this`root, this`nodes, nodes`left, nodes`right, nodes`parent, nil`parent
      ensures nodes == old(nodes) - {z}
      ensures Focused(p, c) && At(x, p, c)
      ensures if t.red then Balanced(Plug(p, c), h) else ShortFocus(p, c, h)
      ensures Inorder(tree) == b + [z] + a && Inorder(Plug(p, c)) == b + a
    {
      hide Spells;
      hide ShortFocus;
      Nearby(p, t);
      if z.left == nil {
        x, c := z.right, t.right;
        SpliceAt(z, z.right, p, t, t.right);
      } else {
        x, c := z.left, t.left;
        SpliceAt(z, z.left, p, t, t.left);
      }
      ghost var k :| Balanced(tree, k);
      h := SpliceBalance(p, t, c, k);
      b, a := Before(p) + Inorder(t.left), Inorder(t.right) + After(p);
      SpliceOrder(p, t, c);
    }

    /** Two children: the successor takes z's place. */
    method DeleteFull(z: RBNode<D>, ghost p: Path<RBNode<D>>, ghost t: Tree<RBNode<D>>)
      returns (yOriginalRed: bool, x: RBNode<D>, ghost p': Path<RBNode<D>>, ghost c: Tree<RBNode<D>>, ghost h: int,
               ghost b: seq<RBNode<D>>, ghost a: seq<RBNode<D>>)
      requires Focused(p, t) && t.Node? && t.n == z && Plug(p, t) == tree && (exists k :: Balanced(tree, k))
      requires z.left != nil && z.right != nil
      modifies this`root, this`nodes, nodes`left, nodes`right, nodes`parent, nodes`isRed, nil`parent
      ensures nodes == old(nodes) - {z}
      ensures Focused(p', c) && At(x, p', c)
      ensures if yOriginalRed then Balanced(Plug(p', c), h) else ShortFocus(p', c, h)
      ensures Inorder(tree) == b + [z] + a && Inorder(Plug(p', c)) == b + a
    {
      hide Spells;
      hide ShortFocus;
      Nearby(p, t);
      Down(p, t);
      var y;
      ghost var q, s;
      y, q, s := Minimum(z.right, InRight(p, z, t.red, t.left), t.right);
      yOriginalRed := y.isRed;
      x := y.right;
      SwapOutAt(z, y, p, t, q, s);
      ghost var k :| Balanced(tree, k);
      h := SwapOutBalance(p, t, q, s, k);
      p', c := Concat(q, InRight(p, y, t.red, t.left)), s.right;
      b, a := Before(p) + Inorder(t.left), OrderAfterSwap(p, q, s);
      SwapOutOrderBefore(p, t, q, s);
      SwapOutOrderAfter(p, z, t.red, t.left, q, s);
    }

    method Find(key: string) returns (found: RBNode?<D>)
      requires Valid()
      ensures found != null ==> found in nodes && found.key == key
      ensures found == null ==> forall n :: n in nodes ==> n.key != key
    {
      hide Spells;
      var x := root;
      ghost var p: Path<RBNode<D>>, t := Top, tree;
      Nearby(p, t);
      while x != nil
        invariant Focused(p, t) && Plug(p, t) == tree && x == RootOf(t, nil)
        invariant t.Node? ==> t.n in nodes
        invariant key !in Keys(Before(p)) && key !in Keys(After(p))
        invariant Between(Before(p), key, After(p))
        decreases t
      {
        Nearby(p, t);
        Down(p, t);
        var cmp := Compare(key, x.key);
        CompareEqual(key, x.key);
        if cmp == 0 {
          return x;
        }
        InorderPlug(p, t);
        SearchStep(Before(p), Inorder(t.left), t.n, Inorder(t.right), After(p), key);
        SearchMiss(Before(p), Inorder(t.left), t.n, Inorder(t.right), After(p), key);
        if cmp < 0 {
          x := x.left;
          p, t := InLeft(p, t.n, t.red, t.right), t.left;
        } else {
          x := x.right;
          p, t := InRight(p, t.n, t.red, t.left), t.right;
        }
        Nearby(p, t);
      }
      found := null;
      Nearby(p, t);
      InorderPlug(p, t);
      InorderNodes(tree);
      Nearby(Top, tree);
    }

    method TraverseNode(node: RBNode<D>, ghost p: Path<RBNode<D>>, ghost t: Tree<RBNode<D>>) returns (visited: seq<RBNode<D>>)
      requires Focused(p, t) && node == RootOf(t, nil)
      ensures visited == Inorder(t)
      decreases t
    {
      hide Spells;
      Nearby(p, t);
      if node == nil {
        return [];
      }
      Down(p, t);
      var below := TraverseNode(node.left, InLeft(p, t.n, t.red, t.right), t.left);
      var above := TraverseNode(node.right, InRight(p, t.n, t.red, t.left), t.right);
      return below + [node] + above;
    }

    /** The data in the order of the keys. */
    method BuildStack() returns (stack: seq<Option<D>>, ghost visited: seq<RBNode<D>>)
      requires Valid()
      ensures forall i, j :: 0 <= i < j < |visited| ==> visited[i].key == visited[j].key || ComesBefore(visited[i].key, visited[j].key)
      ensures Sorted(visited) && visited == Inorder(tree) && forall i, j :: 0 <= i < j < |visited| ==> visited[i] != visited[j]
      ensures |stack| == |visited| && forall i :: 0 <= i < |stack| ==> stack[i] == visited[i].data
    {
      Nearby(Top, tree);
      SpellsDistinct(Table(), root, nil, tree);
      InorderDistinct(tree);
      var order := TraverseNode(root, Top, tree);
      visited := order;
      stack := [];
      for i := 0 to |order|
        invariant |stack| == i && forall j :: 0 <= j < i ==> stack[j] == order[j].data
      {
        stack := stack + [order[i].data];
      }
      SortedMeans(visited);
    }

    /** What validity means, node by node and for the whole. */
    lemma ValidMeans()
      requires Valid()
      ensures forall n :: n in nodes ==> LocallyValid(n)
      ensures root == nil || (root in nodes && root.parent == nil && !root.isRed)
      ensures forall n :: n in Inorder(tree) <==> n in nodes
      ensures |Inorder(tree)| == |nodes|
      ensures Pow2((Height(tree) + 1) / 2) <= |nodes| + 1
    {
      hide Spells;
      var k :| Balanced(tree, k);
      Nearby(Top, tree);
      SpellsDistinct(Table(), root, nil, tree);
      InorderNodes(tree);
      InorderSize(tree);
      BlackHeightNatural(tree, k);
      HeightLogarithmic(tree, k);
      forall n | n in nodes ensures LocallyValid(n) {
        NodeMeans(n);
      }
    }

    lemma NodeMeans(n: RBNode<D>)
      requires Valid() && n in nodes
      ensures LocallyValid(n)
    {
      hide Spells;
      var k :| Balanced(tree, k);
      Nearby(Top, tree);
      var p, t := FocusOn(tree, n);
      Zoom(p, t);
      Nearby(p, t);
      Down(p, t);
      Nearby(InLeft(p, t.n, t.red, t.right), t.left);
      Nearby(InRight(p, t.n, t.red, t.left), t.right);
      var h := BalancedUnplug(p, t, k);
      AtRoot(n, p, t);
    }

    /** Parent and children agree, and a red node has black children. */
    ghost predicate LocallyValid(n: RBNode<D>)
      reads this`root, this`nodes, nodes, nil
    {
      && n in nodes
      && (n.left == nil || (n.left in nodes && n.left.parent == n))
      && (n.right == nil || (n.right in nodes && n.right.parent == n))
      && (n == root || (n.parent in nodes && (n.parent.left == n || n.parent.right == n)))
      && (n.isRed ==> !n.left.isRed && !n.right.isRed)
    }
  }
}
