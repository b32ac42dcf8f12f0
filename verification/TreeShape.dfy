/** Binary trees over node references, taken apart at a focus, and what it means for
    a table of pointers to spell out such a tree. */
module TreeShape {

  datatype Tree<N> = Leaf | Node(left: Tree<N>, n: N, red: bool, right: Tree<N>)

  /** The tree around a hole, innermost step first. */
  datatype Path<N> =
    | Top
    | InLeft(up: Path<N>, n: N, red: bool, right: Tree<N>)
    | InRight(up: Path<N>, n: N, red: bool, left: Tree<N>)

  /** The four mutable fields of one node. */
  datatype Links<N> = Links(left: N, right: N, parent: N, red: bool)

  type View<!N> = map<N, Links<N>>

  ghost function Plug<N>(p: Path<N>, t: Tree<N>): Tree<N> {
    match p
    case Top => t
    case InLeft(up, n, red, right) => Plug(up, Node(t, n, red, right))
    case InRight(up, n, red, left) => Plug(up, Node(left, n, red, t))
  }

  ghost function Inorder<N>(t: Tree<N>): seq<N> {
    match t
    case Leaf => []
    case Node(l, n, _, r) => Inorder(l) + [n] + Inorder(r)
  }

  ghost function Nodes<N>(t: Tree<N>): set<N> {
    match t
    case Leaf => {}
    case Node(l, n, _, r) => Nodes(l) + {n} + Nodes(r)
  }

  ghost function PathNodes<N>(p: Path<N>): set<N> {
    match p
    case Top => {}
    case InLeft(up, n, _, t) => PathNodes(up) + {n} + Nodes(t)
    case InRight(up, n, _, t) => PathNodes(up) + {n} + Nodes(t)
  }

  ghost predicate Distinct<N>(t: Tree<N>) {
    t.Leaf? || (Distinct(t.left) && Distinct(t.right) && t.n !in Nodes(t.left) && t.n !in Nodes(t.right) && Nodes(t.left) !! Nodes(t.right))
  }

  ghost predicate PathDistinct<N>(p: Path<N>) {
    match p
    case Top => true
    case InLeft(up, n, _, t) => PathDistinct(up) && Distinct(t) && n !in PathNodes(up) && n !in Nodes(t) && Nodes(t) !! PathNodes(up)
    case InRight(up, n, _, t) => PathDistinct(up) && Distinct(t) && n !in PathNodes(up) && n !in Nodes(t) && Nodes(t) !! PathNodes(up)
  }

  ghost function RootOf<N>(t: Tree<N>, nil: N): N {
    if t.Leaf? then nil else t.n
  }

  ghost function HoleParent<N>(p: Path<N>, nil: N): N {
    if p.Top? then nil else p.n
  }

  ghost function PathRoot<N>(p: Path<N>, hole: N): N {
    if p.Top? then hole else PathRoot(p.up, p.n)
  }

  ghost predicate Holds<N>(v: View<N>, t: Tree<N>, parent: N, nil: N) {
    match t
    case Leaf => true
    case Node(l, n, red, r) =>
      && n in v && v[n] == Links(RootOf(l, nil), RootOf(r, nil), parent, red)
      && Holds(v, l, n, nil) && Holds(v, r, n, nil)
  }

  ghost predicate HoldsPath<N>(v: View<N>, p: Path<N>, hole: N, nil: N) {
    match p
    case Top => true
    case InLeft(up, n, red, t) =>
      && n in v && v[n] == Links(hole, RootOf(t, nil), HoleParent(up, nil), red)
      && Holds(v, t, n, nil) && HoldsPath(v, up, n, nil)
    case InRight(up, n, red, t) =>
      && n in v && v[n] == Links(RootOf(t, nil), hole, HoleParent(up, nil), red)
      && Holds(v, t, n, nil) && HoldsPath(v, up, n, nil)
  }

  /** The table v spells out exactly the tree Plug(p, t). */
  ghost predicate Spells<N>(v: View<N>, root: N, nil: N, p: Path<N>, t: Tree<N>) {
    && v.Keys == PathNodes(p) + Nodes(t) && nil !in v
    && PathDistinct(p) && Distinct(t) && PathNodes(p) !! Nodes(t)
    && root == PathRoot(p, RootOf(t, nil))
    && HoldsPath(v, p, RootOf(t, nil), nil) && Holds(v, t, HoleParent(p, nil), nil)
  }

  lemma SpellsDown<N>(v: View<N>, root: N, nil: N, p: Path<N>, t: Tree<N>)
    requires t.Node?
    ensures Spells(v, root, nil, p, t) <==> Spells(v, root, nil, InLeft(p, t.n, t.red, t.right), t.left)
    ensures Spells(v, root, nil, p, t) <==> Spells(v, root, nil, InRight(p, t.n, t.red, t.left), t.right)
  {
  }

  lemma HoldsFrame<N>(v: View<N>, w: View<N>, t: Tree<N>, parent: N, nil: N)
    requires Holds(v, t, parent, nil)
    requires forall n :: n in Nodes(t) ==> n in w && n in v && w[n] == v[n]
    ensures Holds(w, t, parent, nil)
  {
    if t.Node? {
      HoldsFrame(v, w, t.left, t.n, nil);
      HoldsFrame(v, w, t.right, t.n, nil);
    }
  }

  lemma HoldsPathFrame<N>(v: View<N>, w: View<N>, p: Path<N>, hole: N, nil: N)
    requires HoldsPath(v, p, hole, nil)
    requires forall n :: n in PathNodes(p) ==> n in w && n in v && w[n] == v[n]
    ensures HoldsPath(w, p, hole, nil)
  {
    if !p.Top? {
      HoldsPathFrame(v, w, p.up, p.n, nil);
      HoldsFrame(v, w, if p.InLeft? then p.right else p.left, p.n, nil);
    }
  }

  /** Giving a subtree's root another parent. */
  lemma Reparented<N>(v: View<N>, w: View<N>, t: Tree<N>, parent: N, parent': N, nil: N)
    requires Holds(v, t, parent, nil) && Distinct(t)
    requires forall n :: n in Nodes(t) ==> n in w && n in v && w[n] == if n == t.n then v[n].(parent := parent') else v[n]
    ensures Holds(w, t, parent', nil)
  {
    if t.Node? {
      HoldsFrame(v, w, t.left, t.n, nil);
      HoldsFrame(v, w, t.right, t.n, nil);
    }
  }

  /** Hanging another root below the node around the hole. */
  ghost function Rehung<N>(p: Path<N>, l: Links<N>, hole: N): Links<N>
  {
    if p.InLeft? then l.(left := hole) else l.(right := hole)
  }

  lemma Rehang<N>(v: View<N>, w: View<N>, p: Path<N>, hole: N, hole': N, nil: N)
    requires HoldsPath(v, p, hole, nil) && PathDistinct(p)
    requires forall n :: n in PathNodes(p) ==> n in w && n in v && w[n] == if n == p.n then Rehung(p, v[n], hole') else v[n]
    ensures HoldsPath(w, p, hole', nil)
  {
    if !p.Top? {
      HoldsPathFrame(v, w, p.up, p.n, nil);
      HoldsFrame(v, w, if p.InLeft? then p.right else p.left, p.n, nil);
    }
  }

  /** Replacing the focused subtree: the path is untouched but for the link to the hole. */
  lemma Refocus<N>(v: View<N>, w: View<N>, root: N, nil: N, p: Path<N>, t: Tree<N>, t': Tree<N>)
    requires Spells(v, root, nil, p, t)
    requires w.Keys == PathNodes(p) + Nodes(t') && nil !in w
    requires Distinct(t') && PathNodes(p) !! Nodes(t') && Holds(w, t', HoleParent(p, nil), nil)
    requires forall n :: n in PathNodes(p) ==> w[n] == if n == p.n then Rehung(p, v[n], RootOf(t', nil)) else v[n]
    ensures Spells(w, if p.Top? then RootOf(t', nil) else root, nil, p, t')
  {
    Rehang(v, w, p, RootOf(t, nil), RootOf(t', nil), nil);
  }

  /** The fields of a parent after its child x is replaced by y. */
  ghost function Relinked<N>(l: Links<N>, x: N, y: N): Links<N> {
    if l.left == x then l.(left := y) else l.(right := y)
  }

  /** x has a right child, and the nodes a left rotation touches are all different. */
  ghost predicate CanRotateLeft<N>(v: View<N>, nil: N, x: N) {
    && nil !in v && x in v
    && var y := v[x].right;
    && y in v && y != x
    && var b, q := v[y].left, v[x].parent;
    && (b == nil || (b in v && b != x && b != y && b != q))
    && (q == nil || (q in v && q != x && q != y && ((v[q].left == x) != (v[q].right == x))))
  }

  /** The table after the pointer writes of a left rotation at x. */
  ghost function RotatedLeft<N>(v: View<N>, nil: N, x: N): View<N>
    requires CanRotateLeft(v, nil, x)
  {
    var y := v[x].right;
    var b, q := v[y].left, v[x].parent;
    map n | n in v ::
      if n == x then Links(v[x].left, b, y, v[x].red)
      else if n == y then Links(x, v[y].right, q, v[y].red)
      else if n == b then v[b].(parent := x)
      else if n == q then Relinked(v[q], x, y)
      else v[n]
  }

  ghost function LeftUp<N>(t: Tree<N>): Tree<N>
    requires t.Node? && t.right.Node?
  {
    Node(Node(t.left, t.n, t.red, t.right.left), t.right.n, t.right.red, t.right.right)
  }

  lemma RotateLeftAllowed<N>(v: View<N>, root: N, nil: N, p: Path<N>, t: Tree<N>)
    requires t.Node? && t.right.Node? && Spells(v, root, nil, p, t)
    ensures CanRotateLeft(v, nil, t.n) && v[t.n].right == t.right.n
    ensures v[t.n] == Links(RootOf(t.left, nil), t.right.n, HoleParent(p, nil), t.red)
    ensures v[t.right.n] == Links(RootOf(t.right.left, nil), RootOf(t.right.right, nil), t.n, t.right.red)
    ensures t.right.left.Node? ==> t.right.left.n in Nodes(t) && t.right.left.n !in PathNodes(p)
    ensures !p.Top? ==> p.n in PathNodes(p) && p.n !in Nodes(t) && (v[p.n].left == t.n <==> p.InLeft?) && (v[p.n].right == t.n <==> p.InRight?)
  {
    assert Holds(v, t.right, t.n, nil) && Distinct(t.right);
    var b := t.right.left;
    assert b.Node? ==> b.n in Nodes(b) && b.n in Nodes(t.right);
    if p.InRight? && p.left.Node? { assert p.left.n in Nodes(p.left); }
    if p.InLeft? && p.right.Node? { assert p.right.n in Nodes(p.right); }
  }

  lemma RotateLeftHolds<N>(v: View<N>, root: N, nil: N, p: Path<N>, t: Tree<N>)
    requires t.Node? && t.right.Node? && Spells(v, root, nil, p, t)
    requires CanRotateLeft(v, nil, t.n)
    ensures Holds(RotatedLeft(v, nil, t.n), LeftUp(t), HoleParent(p, nil), nil)
  {
    RotateLeftAllowed(v, root, nil, p, t);
    var w := RotatedLeft(v, nil, t.n);
    var x, y, b := t.n, t.right.n, t.right.left;
    assert Holds(v, t.right, x, nil) && Distinct(t.right);
    HoldsFrame(v, w, t.left, x, nil);
    HoldsFrame(v, w, t.right.right, y, nil);
    Reparented(v, w, b, y, x, nil);
    assert Holds(w, Node(t.left, x, t.red, b), y, nil);
  }

  lemma RotateLeftSpells<N>(v: View<N>, root: N, nil: N, p: Path<N>, t: Tree<N>)
    requires t.Node? && t.right.Node? && Spells(v, root, nil, p, t)
    ensures CanRotateLeft(v, nil, t.n)
    ensures Spells(RotatedLeft(v, nil, t.n), if v[t.n].parent == nil then t.right.n else root, nil, p, LeftUp(t))
  {
    RotateLeftAllowed(v, root, nil, p, t);
    RotateLeftHolds(v, root, nil, p, t);
    assert Distinct(t.right);
    var x := LeftUp(t).left;
    assert Distinct(x) && Nodes(x) == Nodes(t.left) + {t.n} + Nodes(t.right.left);
    assert Nodes(LeftUp(t)) == Nodes(t);
    Refocus(v, RotatedLeft(v, nil, t.n), root, nil, p, t, LeftUp(t));
  }

  /** x has a left child, and the nodes a right rotation touches are all different. */
  ghost predicate CanRotateRight<N>(v: View<N>, nil: N, x: N) {
    && nil !in v && x in v
    && var y := v[x].left;
    && y in v && y != x
    && var b, q := v[y].right, v[x].parent;
    && (b == nil || (b in v && b != x && b != y && b != q))
    && (q == nil || (q in v && q != x && q != y && ((v[q].left == x) != (v[q].right == x))))
  }

  /** The table after the pointer writes of a right rotation at x. */
  ghost function RotatedRight<N>(v: View<N>, nil: N, x: N): View<N>
    requires CanRotateRight(v, nil, x)
  {
    var y := v[x].left;
    var b, q := v[y].right, v[x].parent;
    map n | n in v ::
      if n == x then Links(b, v[x].right, y, v[x].red)
      else if n == y then Links(v[y].left, x, q, v[y].red)
      else if n == b then v[b].(parent := x)
      else if n == q then Relinked(v[q], x, y)
      else v[n]
  }

  ghost function RightUp<N>(t: Tree<N>): Tree<N>
    requires t.Node? && t.left.Node?
  {
    Node(t.left.left, t.left.n, t.left.red, Node(t.left.right, t.n, t.red, t.right))
  }

  lemma RotateRightAllowed<N>(v: View<N>, root: N, nil: N, p: Path<N>, t: Tree<N>)
    requires t.Node? && t.left.Node? && Spells(v, root, nil, p, t)
    ensures CanRotateRight(v, nil, t.n) && v[t.n].left == t.left.n
    ensures v[t.n] == Links(t.left.n, RootOf(t.right, nil), HoleParent(p, nil), t.red)
    ensures v[t.left.n] == Links(RootOf(t.left.left, nil), RootOf(t.left.right, nil), t.n, t.left.red)
    ensures t.left.right.Node? ==> t.left.right.n in Nodes(t) && t.left.right.n !in PathNodes(p)
    ensures !p.Top? ==> p.n in PathNodes(p) && p.n !in Nodes(t) && (v[p.n].left == t.n <==> p.InLeft?) && (v[p.n].right == t.n <==> p.InRight?)
  {
    assert Holds(v, t.left, t.n, nil) && Distinct(t.left);
    var b := t.left.right;
    assert b.Node? ==> b.n in Nodes(b) && b.n in Nodes(t.left);
    if p.InRight? && p.left.Node? { assert p.left.n in Nodes(p.left); }
    if p.InLeft? && p.right.Node? { assert p.right.n in Nodes(p.right); }
  }

  lemma RotateRightHolds<N>(v: View<N>, root: N, nil: N, p: Path<N>, t: Tree<N>)
    requires t.Node? && t.left.Node? && Spells(v, root, nil, p, t)
    requires CanRotateRight(v, nil, t.n)
    ensures Holds(RotatedRight(v, nil, t.n), RightUp(t), HoleParent(p, nil), nil)
  {
    RotateRightAllowed(v, root, nil, p, t);
    var w := RotatedRight(v, nil, t.n);
    var x, y, b := t.n, t.left.n, t.left.right;
    assert Holds(v, t.left, x, nil) && Distinct(t.left);
    HoldsFrame(v, w, t.right, x, nil);
    HoldsFrame(v, w, t.left.left, y, nil);
    Reparented(v, w, b, y, x, nil);
    assert Holds(w, Node(b, x, t.red, t.right), y, nil);
  }

  lemma RotateRightSpells<N>(v: View<N>, root: N, nil: N, p: Path<N>, t: Tree<N>)
    requires t.Node? && t.left.Node? && Spells(v, root, nil, p, t)
    ensures CanRotateRight(v, nil, t.n)
    ensures Spells(RotatedRight(v, nil, t.n), if v[t.n].parent == nil then t.left.n else root, nil, p, RightUp(t))
  {
    RotateRightAllowed(v, root, nil, p, t);
    RotateRightHolds(v, root, nil, p, t);
    assert Distinct(t.left);
    var x := RightUp(t).right;
    assert Distinct(x) && Nodes(x) == Nodes(t.right) + {t.n} + Nodes(t.left.right);
    assert Nodes(RightUp(t)) == Nodes(t);
    Refocus(v, RotatedRight(v, nil, t.n), root, nil, p, t, RightUp(t));
  }

  /** Recolouring the focused node. */
  lemma PaintSpells<N>(v: View<N>, root: N, nil: N, p: Path<N>, t: Tree<N>, red: bool)
    requires t.Node? && Spells(v, root, nil, p, t)
    ensures t.n in v && Spells(v[t.n := v[t.n].(red := red)], root, nil, p, t.(red := red))
  {
    var w := v[t.n := v[t.n].(red := red)];
    HoldsFrame(v, w, t.left, t.n, nil);
    HoldsFrame(v, w, t.right, t.n, nil);
    Refocus(v, w, root, nil, p, t, t.(red := red));
  }

  /** Hanging a fresh red leaf z at an empty focus. */
  ghost predicate Attached<N>(v: View<N>, w: View<N>, nil: N, p: Path<N>, z: N) {
    && z !in v && z != nil && w.Keys == v.Keys + {z}
    && w[z] == Links(nil, nil, HoleParent(p, nil), true)
    && forall n :: n in v ==> w[n] == if !p.Top? && n == p.n then Rehung(p, v[n], z) else v[n]
  }

  lemma AttachSpells<N>(v: View<N>, w: View<N>, root: N, nil: N, p: Path<N>, z: N)
    requires Spells(v, root, nil, p, Leaf) && Attached(v, w, nil, p, z)
    ensures Spells(w, if p.Top? then z else root, nil, p, Node(Leaf, z, true, Leaf))
  {
    Refocus(v, w, root, nil, p, Leaf, Node(Leaf, z, true, Leaf));
  }

  /** Putting the only child c of the focused node z in z's place. */
  ghost predicate Spliced<N>(v: View<N>, w: View<N>, nil: N, p: Path<N>, z: N, c: N)
  {
    && z in v && w.Keys == v.Keys - {z}
    && forall n :: n in w ==>
      w[n] == if n == c then v[n].(parent := HoleParent(p, nil)) else if !p.Top? && n == p.n then Rehung(p, v[n], c) else v[n]
  }

  lemma SpliceAllowed<N>(v: View<N>, root: N, nil: N, p: Path<N>, t: Tree<N>, c: Tree<N>)
    requires t.Node? && Spells(v, root, nil, p, t)
    requires (t.left.Leaf? && c == t.right) || (t.right.Leaf? && c == t.left)
    ensures t.n in v && v[t.n].parent == HoleParent(p, nil) && nil !in v
    ensures c.Node? ==> c.n in v && c.n != t.n && (!p.Top? ==> c.n != p.n)
    ensures !p.Top? ==> p.n in v && p.n != t.n && (v[p.n].left == t.n <==> p.InLeft?) && (v[p.n].right == t.n <==> p.InRight?)
  {
    assert c.Node? ==> c.n in Nodes(c) && c.n in Nodes(t);
    if p.InLeft? && p.right.Node? { assert p.right.n in Nodes(p.right); }
    if p.InRight? && p.left.Node? { assert p.left.n in Nodes(p.left); }
  }

  lemma SpliceSpells<N>(v: View<N>, w: View<N>, root: N, nil: N, p: Path<N>, t: Tree<N>, c: Tree<N>)
    requires t.Node? && Spells(v, root, nil, p, t)
    requires (t.left.Leaf? && c == t.right) || (t.right.Leaf? && c == t.left)
    requires Spliced(v, w, nil, p, t.n, RootOf(c, nil))
    ensures Spells(w, if p.Top? then RootOf(c, nil) else root, nil, p, c)
  {
    assert Nodes(t) == Nodes(c) + {t.n};
    assert c.Node? ==> c.n in Nodes(c);
    assert !p.Top? ==> p.n in PathNodes(p);
    Reparented(v, w, c, t.n, HoleParent(p, nil), nil);
    Refocus(v, w, root, nil, p, t, c);
  }

  /** Putting an outside node y in the place of the focused node z. */
  ghost predicate Relabelled<N>(v: View<N>, w: View<N>, nil: N, p: Path<N>, z: N, y: N)
  {
    && z in v && y !in v && y != nil && w.Keys == v.Keys - {z} + {y}
    && w[y] == v[z]
    && forall n :: n in v && n != z ==>
      w[n] == if n == v[z].left || n == v[z].right then v[n].(parent := y)
              else if !p.Top? && n == p.n then Rehung(p, v[n], y)
              else v[n]
  }

  lemma RelabelSpells<N>(v: View<N>, w: View<N>, root: N, nil: N, p: Path<N>, t: Tree<N>, y: N)
    requires t.Node? && Spells(v, root, nil, p, t) && Relabelled(v, w, nil, p, t.n, y)
    ensures Spells(w, if p.Top? then y else root, nil, p, t.(n := y))
  {
    assert t.left.Node? ==> t.left.n in Nodes(t.left);
    assert t.right.Node? ==> t.right.n in Nodes(t.right);
    assert !p.Top? ==> p.n in PathNodes(p);
    Reparented(v, w, t.left, t.n, y, nil);
    Reparented(v, w, t.right, t.n, y, nil);
    Refocus(v, w, root, nil, p, t, t.(n := y));
  }

  // ---------- moving the focus ----------

  /** The inner path q continued outwards by p. */
  ghost function Concat<N>(q: Path<N>, p: Path<N>): Path<N> {
    match q
    case Top => p
    case InLeft(up, n, red, right) => InLeft(Concat(up, p), n, red, right)
    case InRight(up, n, red, left) => InRight(Concat(up, p), n, red, left)
  }

  lemma SpellsZoom<N>(v: View<N>, root: N, nil: N, q: Path<N>, p: Path<N>, t: Tree<N>)
    ensures Spells(v, root, nil, Concat(q, p), t) <==> Spells(v, root, nil, p, Plug(q, t))
    decreases q
  {
    match q
    case Top =>
    case InLeft(up, n, red, right) =>
      SpellsDown(v, root, nil, Concat(up, p), Node(t, n, red, right));
      SpellsZoom(v, root, nil, up, p, Node(t, n, red, right));
    case InRight(up, n, red, left) =>
      SpellsDown(v, root, nil, Concat(up, p), Node(left, n, red, t));
      SpellsZoom(v, root, nil, up, p, Node(left, n, red, t));
  }

  ghost function Steps<N>(p: Path<N>): nat {
    if p.Top? then 0 else 1 + Steps(p.up)
  }

  /** One step out of the hole. */
  ghost function Fill<N>(p: Path<N>, t: Tree<N>): Tree<N>
    requires !p.Top?
  {
    if p.InLeft? then Node(t, p.n, p.red, p.right) else Node(p.left, p.n, p.red, t)
  }

  ghost function Sibling<N>(p: Path<N>): Tree<N>
    requires !p.Top?
  {
    if p.InLeft? then p.right else p.left
  }

  /** The path to the sibling of a hole that holds t. */
  ghost function Across<N>(p: Path<N>, t: Tree<N>): Path<N>
    requires !p.Top?
  {
    if p.InLeft? then InRight(p.up, p.n, p.red, t) else InLeft(p.up, p.n, p.red, t)
  }

  lemma SpellsUp<N>(v: View<N>, root: N, nil: N, p: Path<N>, t: Tree<N>)
    requires !p.Top?
    ensures Spells(v, root, nil, p, t) <==> Spells(v, root, nil, p.up, Fill(p, t))
    ensures Spells(v, root, nil, p, t) <==> Spells(v, root, nil, Across(p, t), Sibling(p))
  {
    SpellsDown(v, root, nil, p.up, Fill(p, t));
  }

  lemma ConcatTop<N>(q: Path<N>)
    ensures Concat(q, Top) == q
  {
  }

  lemma SpellsPlug<N>(v: View<N>, root: N, nil: N, p: Path<N>, t: Tree<N>)
    ensures Spells(v, root, nil, p, t) <==> Spells(v, root, nil, Top, Plug(p, t))
  {
    ConcatTop(p);
    SpellsZoom(v, root, nil, p, Top, t);
  }

  lemma PathRootInside<N>(p: Path<N>, hole: N)
    requires !p.Top?
    ensures PathRoot(p, hole) in PathNodes(p)
  {
    if !p.up.Top? { PathRootInside(p.up, p.n); }
  }

  lemma PlugNode<N>(p: Path<N>, t: Tree<N>)
    ensures t.Node? ==> Plug(p, t).Node?
  {
  }

  lemma FocusOn<N>(t: Tree<N>, n: N) returns (p: Path<N>, s: Tree<N>)
    requires n in Nodes(t)
    ensures Plug(p, s) == t && s.Node? && s.n == n
  {
    if n == t.n {
      p, s := Top, t;
    } else if n in Nodes(t.left) {
      p, s := FocusOn(t.left, n);
      PlugConcat(p, InLeft(Top, t.n, t.red, t.right), s);
      p := Concat(p, InLeft(Top, t.n, t.red, t.right));
    } else {
      p, s := FocusOn(t.right, n);
      PlugConcat(p, InRight(Top, t.n, t.red, t.left), s);
      p := Concat(p, InRight(Top, t.n, t.red, t.left));
    }
  }

  lemma PlugConcat<N>(q: Path<N>, p: Path<N>, t: Tree<N>)
    ensures Plug(Concat(q, p), t) == Plug(p, Plug(q, t))
    decreases q
  {
    match q
    case Top =>
    case InLeft(up, n, red, right) => PlugConcat(up, p, Node(t, n, red, right));
    case InRight(up, n, red, left) => PlugConcat(up, p, Node(left, n, red, t));
  }

  // ---------- order ----------

  ghost function Before<N>(p: Path<N>): seq<N> {
    match p
    case Top => []
    case InLeft(up, _, _, _) => Before(up)
    case InRight(up, n, _, left) => Before(up) + Inorder(left) + [n]
  }

  ghost function After<N>(p: Path<N>): seq<N> {
    match p
    case Top => []
    case InLeft(up, n, _, right) => [n] + Inorder(right) + After(up)
    case InRight(up, _, _, _) => After(up)
  }

  lemma Regroup<N>(a: seq<N>, b: seq<N>, c: seq<N>, d: seq<N>, e: seq<N>)
    ensures a + (b + c + d) + e == a + b + (c + d + e)
    ensures a + (b + c + d) + e == a + b + c + d + e
  {
  }

  lemma {:induction false} InorderPlug<N>(p: Path<N>, t: Tree<N>)
    ensures Inorder(Plug(p, t)) == Before(p) + Inorder(t) + After(p)
  {
    match p
    case Top =>
      assert Before(p) + Inorder(t) + After(p) == Inorder(t);
    case InLeft(up, n, red, right) =>
      InorderPlug(up, Node(t, n, red, right));
      Regroup(Before(up), Inorder(t), [n], Inorder(right), After(up));
    case InRight(up, n, red, left) =>
      InorderPlug(up, Node(left, n, red, t));
      Regroup(Before(up), Inorder(left), [n], Inorder(t), After(up));
  }

  // ---------- replacing a node by its successor ----------

  ghost predicate LeftOnly<N>(q: Path<N>) {
    q.Top? || (q.InLeft? && LeftOnly(q.up))
  }

  lemma ConcatNodes<N>(q: Path<N>, p: Path<N>)
    ensures PathNodes(Concat(q, p)) == PathNodes(q) + PathNodes(p)
    ensures Concat(q, p).Top? ==> q.Top? && p.Top?
    ensures PathDistinct(Concat(q, p)) ==> PathDistinct(q) && PathDistinct(p) && PathNodes(q) !! PathNodes(p)
    decreases q
  {
    match q
    case Top =>
    case InLeft(up, n, _, _) => ConcatNodes(up, p);
    case InRight(up, n, _, _) => ConcatNodes(up, p);
  }

  lemma PlugRoot<N>(q: Path<N>, t: Tree<N>, nil: N)
    ensures RootOf(Plug(q, t), nil) == PathRoot(q, RootOf(t, nil))
  {
  }

  /** z has two children; y, without a left child, is leftmost below its right child; the nodes around are all different. */
  ghost predicate CanSwapOut<N>(v: View<N>, nil: N, z: N, y: N) {
    && nil !in v && z in v && y in v && y != z && v[y].left == nil
    && var x, yp, zl, zr, zp := v[y].right, v[y].parent, v[z].left, v[z].right, v[z].parent;
    && (x == nil || (x in v && x !in {y, z, yp, zl, zr, zp}))
    && zl in v && zr in v && zl !in {z, y, yp, zr, zp} && zr !in {z, zp}
    && (zp == nil || (zp in v && zp !in {z, y, yp} && (v[zp].left == z) != (v[zp].right == z)))
    && (if yp == z then zr == y else yp in v && yp != y && zr != y && v[yp].left == y && yp != zp)
  }

  /** The table after cutting y out of its own place and putting it where z was. */
  ghost predicate SwappedOut<N>(v: View<N>, w: View<N>, nil: N, z: N, y: N)
    requires CanSwapOut(v, nil, z, y)
  {
    var x, yp, zl, zr, zp := v[y].right, v[y].parent, v[z].left, v[z].right, v[z].parent;
    && w.Keys == v.Keys - {z}
    && w[y] == Links(zl, if yp == z then x else zr, zp, v[z].red)
    && forall n :: n in v && n != z && n != y ==>
      w[n] == if n == zl then v[n].(parent := y)
              else if n == zp then Relinked(v[n], z, y)
              else if n == x then v[n].(parent := if yp == z then y else yp)
              else if n == zr then (if n == yp then v[n].(left := x, parent := y) else v[n].(parent := y))
              else if n == yp then v[n].(left := x)
              else v[n]
  }

  /** z holds a whole subtree at p, and s, with no left child, hangs leftmost (along q) below z's right child. */
  ghost predicate AboveSuccessor<N>(v: View<N>, root: N, nil: N, p: Path<N>, t: Tree<N>, q: Path<N>, s: Tree<N>) {
    && t.Node? && t.left.Node? && Spells(v, root, nil, p, t)
    && t.right == Plug(q, s) && LeftOnly(q) && s.Node? && s.left.Leaf?
  }

  lemma AboveSuccessorFocus<N>(v: View<N>, root: N, nil: N, p: Path<N>, t: Tree<N>, q: Path<N>, s: Tree<N>)
    requires AboveSuccessor(v, root, nil, p, t, q, s)
    ensures Spells(v, root, nil, Concat(q, InRight(p, t.n, t.red, t.left)), s)
  {
    SpellsDown(v, root, nil, p, t);
    SpellsZoom(v, root, nil, q, InRight(p, t.n, t.red, t.left), s);
  }

  lemma SwapOutAllowed<N>(v: View<N>, root: N, nil: N, p: Path<N>, t: Tree<N>, q: Path<N>, s: Tree<N>)
    requires AboveSuccessor(v, root, nil, p, t, q, s)
    ensures CanSwapOut(v, nil, t.n, s.n)
    ensures v[t.n].parent == HoleParent(p, nil)
    ensures !p.Top? ==> (v[p.n].left == t.n <==> p.InLeft?)
  {
    var z, y, o := t.n, s.n, InRight(p, t.n, t.red, t.left);
    var P := Concat(q, o);
    AboveSuccessorFocus(v, root, nil, p, t, q, s);
    ConcatNodes(q, o);
    PlugRoot(q, s, nil);
    SpellsDown(v, root, nil, P, s);
    assert v[y] == Links(nil, RootOf(s.right, nil), P.n, s.red);
    assert v[z] == Links(t.left.n, PathRoot(q, y), HoleParent(p, nil), t.red);
    assert s.right.Node? ==> s.right.n in Nodes(s.right) && s.right.n in Nodes(s);
    assert t.left.n in Nodes(t.left) && t.left.n in PathNodes(o);
    if !q.Top? { PathRootInside(q, y); assert v[q.n].left == y; }
    if !p.Top? {
      assert p.n in PathNodes(p);
      if p.InLeft? && p.right.Node? { assert p.right.n in Nodes(p.right); }
      if p.InRight? && p.left.Node? { assert p.left.n in Nodes(p.left); }
    }
  }

  /** The table once y is cut out, z still in place. */
  ghost function CutOut<N>(v: View<N>, z: N, y: N): View<N>
    requires y in v
  {
    var x, yp := v[y].right, v[y].parent;
    map n | n in v && n != y ::
      if n == x then v[n].(parent := yp)
      else if n == yp then (if yp == z then v[n].(right := x) else v[n].(left := x))
      else v[n]
  }

  lemma CutOutSpells<N>(v: View<N>, root: N, nil: N, p: Path<N>, t: Tree<N>, q: Path<N>, s: Tree<N>)
    requires AboveSuccessor(v, root, nil, p, t, q, s)
    ensures s.n in v && Spells(CutOut(v, t.n, s.n), root, nil, p, t.(right := Plug(q, s.right)))
  {
    var z, y, o := t.n, s.n, InRight(p, t.n, t.red, t.left);
    var P := Concat(q, o);
    AboveSuccessorFocus(v, root, nil, p, t, q, s);
    SwapOutAllowed(v, root, nil, p, t, q, s);
    var m := CutOut(v, z, y);
    assert v[y] == Links(nil, RootOf(s.right, nil), P.n, s.red);
    SpliceSpells(v, m, root, nil, P, s, s.right);
    SpellsZoom(m, root, nil, q, o, s.right);
    SpellsDown(m, root, nil, p, t.(right := Plug(q, s.right)));
  }

  lemma SwapOutRelabels<N>(v: View<N>, w: View<N>, nil: N, p: Path<N>, z: N, y: N)
    requires CanSwapOut(v, nil, z, y) && SwappedOut(v, w, nil, z, y)
    requires v[z].parent == HoleParent(p, nil) && (!p.Top? ==> p.n in v && (v[p.n].left == z <==> p.InLeft?))
    ensures Relabelled(CutOut(v, z, y), w, nil, p, z, y)
  {
  }

  lemma SwapOutSpells<N>(v: View<N>, w: View<N>, root: N, nil: N, p: Path<N>, t: Tree<N>, q: Path<N>, s: Tree<N>)
    requires AboveSuccessor(v, root, nil, p, t, q, s)
    requires CanSwapOut(v, nil, t.n, s.n) && SwappedOut(v, w, nil, t.n, s.n)
    ensures Spells(w, if p.Top? then s.n else root, nil, Concat(q, InRight(p, s.n, t.red, t.left)), s.right)
  {
    hide SwappedOut;
    var root' := if p.Top? then s.n else root;
    var t' := t.(right := Plug(q, s.right));
    CutOutSpells(v, root, nil, p, t, q, s);
    SwapOutAllowed(v, root, nil, p, t, q, s);
    SwapOutRelabels(v, w, nil, p, t.n, s.n);
    RelabelSpells(CutOut(v, t.n, s.n), w, root, nil, p, t', s.n);
    SpellsDown(w, root', nil, p, t'.(n := s.n));
    SpellsZoom(w, root', nil, q, InRight(p, s.n, t.red, t.left), s.right);
  }

  lemma LeftOnlyBefore<N>(q: Path<N>)
    requires LeftOnly(q)
    ensures Before(q) == []
  {
  }

  lemma ConcatOrder<N>(q: Path<N>, p: Path<N>)
    ensures Before(Concat(q, p)) == Before(p) + Before(q)
    ensures After(Concat(q, p)) == After(q) + After(p)
    decreases q
  {
    match q
    case Top =>
    case InLeft(up, n, _, right) =>
      ConcatOrder(up, p);
      assert [n] + Inorder(right) + (After(up) + After(p)) == ([n] + Inorder(right) + After(up)) + After(p);
    case InRight(up, n, _, left) =>
      ConcatOrder(up, p);
      assert (Before(p) + Before(up)) + Inorder(left) + [n] == Before(p) + (Before(up) + Inorder(left) + [n]);
  }

  lemma SpliceOrder<N>(p: Path<N>, t: Tree<N>, c: Tree<N>)
    requires t.Node? && ((t.left.Leaf? && c == t.right) || (t.right.Leaf? && c == t.left))
    ensures Inorder(Plug(p, t)) == (Before(p) + Inorder(t.left)) + [t.n] + (Inorder(t.right) + After(p))
    ensures Inorder(Plug(p, c)) == (Before(p) + Inorder(t.left)) + (Inorder(t.right) + After(p))
  {
    var l, r := Inorder(t.left), Inorder(t.right);
    InorderPlug(p, t);
    InorderPlug(p, c);
    RegroupSwap(Before(p), l, [t.n], r, After(p));
    RegroupEmpty(Before(p), Inorder(c), After(p));
  }

  lemma RegroupEmpty<N>(b: seq<N>, c: seq<N>, a: seq<N>)
    ensures b + c + a == (b + []) + (c + a) && b + c + a == (b + c) + ([] + a)
  {
  }

  lemma LeftmostOrder<N>(q: Path<N>, s: Tree<N>)
    requires LeftOnly(q) && s.Node? && s.left.Leaf?
    ensures Inorder(Plug(q, s)) == [s.n] + Inorder(s.right) + After(q)
  {
    InorderPlug(q, s);
    LeftOnlyBefore(q);
    assert Inorder(s) == [s.n] + Inorder(s.right);
  }

  ghost function OrderAfterSwap<N>(p: Path<N>, q: Path<N>, s: Tree<N>): seq<N>
    requires s.Node?
  {
    [s.n] + Inorder(s.right) + After(q) + After(p)
  }

  /** z is followed in order by its successor and the rest ... */
  lemma SwapOutOrderBefore<N>(p: Path<N>, t: Tree<N>, q: Path<N>, s: Tree<N>)
    requires t.Node? && t.right == Plug(q, s) && LeftOnly(q) && s.Node? && s.left.Leaf?
    ensures Inorder(Plug(p, t)) == Before(p) + Inorder(t.left) + [t.n] + OrderAfterSwap(p, q, s)
  {
    InorderPlug(p, t);
    LeftmostOrder(q, s);
    RegroupSwap(Before(p), Inorder(t.left), [t.n], [s.n] + Inorder(s.right) + After(q), After(p));
  }

  lemma RegroupSwap<N>(b: seq<N>, l: seq<N>, z: seq<N>, r: seq<N>, a: seq<N>)
    ensures b + (l + z + r) + a == b + l + z + (r + a)
  {
  }

  /** ... and only z is missing once its successor has taken its place. */
  lemma SwapOutOrderAfter<N>(p: Path<N>, z: N, red: bool, l: Tree<N>, q: Path<N>, s: Tree<N>)
    requires LeftOnly(q) && s.Node? && s.left.Leaf?
    ensures Inorder(Plug(Concat(q, InRight(p, s.n, red, l)), s.right)) == Before(p) + Inorder(l) + OrderAfterSwap(p, q, s)
  {
    var o := InRight(p, s.n, red, l);
    InorderPlug(Concat(q, o), s.right);
    ConcatOrder(q, o);
    LeftOnlyBefore(q);
    var b, c := Before(p) + Inorder(l), Inorder(s.right);
    assert Before(Concat(q, o)) == b + [s.n];
    RegroupAfter(b, [s.n], c, After(q), After(p));
  }

  lemma RegroupAfter<N>(b: seq<N>, y: seq<N>, c: seq<N>, q: seq<N>, p: seq<N>)
    ensures (b + y) + c + (q + p) == b + (y + c + q + p)
  {
  }

  lemma SpellsDistinct<N>(v: View<N>, root: N, nil: N, t: Tree<N>)
    requires Spells(v, root, nil, Top, t)
    ensures Distinct(t)
  {
  }

  lemma InorderNodes<N>(t: Tree<N>)
    ensures forall n :: n in Inorder(t) <==> n in Nodes(t)
  {
  }

  lemma InorderNode<N>(t: Tree<N>, n: N)
    requires n in Inorder(t)
    ensures n in Nodes(t)
  {
    InorderNodes(t);
  }

  lemma {:induction false} InorderDistinct<N>(t: Tree<N>)
    requires Distinct(t)
    ensures forall i, j :: 0 <= i < j < |Inorder(t)| ==> Inorder(t)[i] != Inorder(t)[j]
  {
    if t.Node? {
      InorderDistinct(t.left);
      InorderDistinct(t.right);
      var l, r := Inorder(t.left), Inorder(t.right);
      forall i | 0 <= i < |l| ensures l[i] in Nodes(t.left) {
        InorderNode(t.left, l[i]);
      }
      forall i | 0 <= i < |r| ensures r[i] in Nodes(t.right) {
        InorderNode(t.right, r[i]);
      }
    }
  }
}
