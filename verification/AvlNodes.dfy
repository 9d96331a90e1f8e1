/** The nodes of the AVL index and what their pointer fields must be for a given
    tree: a map from each node to its three links.  A change of pointers is right
    when it turns the links of one tree into those of another. */
module AvlNodes {
  import opened AvlTree

  class AvlNode {
    const id: nat
    const obj: int
    var height: nat
    var left: AvlNode?
    var right: AvlNode?
    var prev: AvlNode?

    constructor (id: nat, obj: int)
      ensures this.id == id && this.obj == obj && height == 1 && left == null && right == null && prev == null
    {
      this.id := id;
      this.obj := obj;
      height := 1;
      left, right, prev := null, null, null;
    }
  }

  type Shape = Tree<AvlNode>
  type Hole = Ctx<AvlNode>

  datatype Link = Link(left: AvlNode?, right: AvlNode?, prev: AvlNode?)

  ghost function TopOf(t: Shape): AvlNode? {
    if t.Nil? then null else t.node
  }

  ghost function ParOf(c: Hole): AvlNode? {
    if c.Top? then null else c.node
  }

  ghost function Nodes(t: Shape): set<AvlNode> {
    match t
    case Nil => {}
    case Bin(l, n, r) => Nodes(l) + {n} + Nodes(r)
  }

  ghost function Around(c: Hole): set<AvlNode> {
    match c
    case Top => {}
    case InLeft(n, r, up) => Around(up) + {n} + Nodes(r)
    case InRight(l, n, up) => Around(up) + {n} + Nodes(l)
  }

  ghost predicate Distinct(t: Shape) {
    match t
    case Nil => true
    case Bin(l, n, r) => Distinct(l) && Distinct(r) && n !in Nodes(l) && n !in Nodes(r) && Nodes(l) !! Nodes(r)
  }

  ghost predicate Apart(c: Hole) {
    match c
    case Top => true
    case InLeft(n, r, up) => Apart(up) && Distinct(r) && n !in Nodes(r) && n !in Around(up) && Nodes(r) !! Around(up)
    case InRight(l, n, up) => Apart(up) && Distinct(l) && n !in Nodes(l) && n !in Around(up) && Nodes(l) !! Around(up)
  }

  lemma {:induction false} PlugNodes(c: Hole, t: Shape)
    ensures Nodes(Plug(c, t)) == Around(c) + Nodes(t)
    ensures Distinct(Plug(c, t)) <==> Apart(c) && Distinct(t) && Around(c) !! Nodes(t)
    decreases c
  {
    match c
    case Top =>
    case InLeft(n, r, up) => PlugNodes(up, Bin(t, n, r));
    case InRight(l, n, up) => PlugNodes(up, Bin(l, n, t));
  }

  // ----------------------------------------------------------------- links

  /** The links of every node of `t` when the node above it is `par`. */
  ghost function Links(t: Shape, par: AvlNode?): map<AvlNode, Link> {
    match t
    case Nil => map[]
    case Bin(l, n, r) => (Links(l, n) + Links(r, n))[n := Link(TopOf(l), TopOf(r), par)]
  }

  /** The links of every node around a hole filled by `hole`. */
  ghost function LinksAround(c: Hole, hole: AvlNode?): map<AvlNode, Link> {
    match c
    case Top => map[]
    case InLeft(n, r, up) => (LinksAround(up, n) + Links(r, n))[n := Link(hole, TopOf(r), ParOf(up))]
    case InRight(l, n, up) => (LinksAround(up, n) + Links(l, n))[n := Link(TopOf(l), hole, ParOf(up))]
  }

  lemma LinksKeys(t: Shape, par: AvlNode?)
    ensures Links(t, par).Keys == Nodes(t)
  {
  }

  lemma AroundKeys(c: Hole, hole: AvlNode?)
    ensures LinksAround(c, hole).Keys == Around(c)
  {
    match c
    case Top =>
    case InLeft(n, r, up) => LinksKeys(r, n);
    case InRight(l, n, up) => LinksKeys(l, n);
  }

  lemma Regroup<K, V>(around: map<K, V>, inner: map<K, V>, side: map<K, V>, n: K, v: V)
    requires n !in around && n !in inner && n !in side
    requires around.Keys !! inner.Keys && around.Keys !! side.Keys && inner.Keys !! side.Keys
    ensures around + (inner + side)[n := v] == (around + side)[n := v] + inner
    ensures around + (side + inner)[n := v] == (around + side)[n := v] + inner
  {
  }

  lemma {:induction false} PlugLinks(c: Hole, t: Shape)
    requires Distinct(Plug(c, t))
    ensures Links(Plug(c, t), null) == LinksAround(c, TopOf(t)) + Links(t, ParOf(c))
    decreases c
  {
    PlugNodes(c, t);
    match c
    case Top =>
    case InLeft(n, r, up) =>
      PlugLinks(up, Bin(t, n, r));
      LinksKeys(t, n);
      LinksKeys(r, n);
      AroundKeys(up, n);
      Regroup(LinksAround(up, n), Links(t, n), Links(r, n), n, Link(TopOf(t), TopOf(r), ParOf(up)));
    case InRight(l, n, up) =>
      PlugLinks(up, Bin(l, n, t));
      LinksKeys(t, n);
      LinksKeys(l, n);
      AroundKeys(up, n);
      Regroup(LinksAround(up, n), Links(t, n), Links(l, n), n, Link(TopOf(l), TopOf(t), ParOf(up)));
  }

  /** Hanging a subtree under another node changes one link. */
  lemma Rehang(t: Shape, par: AvlNode?, par': AvlNode?)
    requires Distinct(t) && t.Bin?
    ensures t.node in Links(t, par)
    ensures Links(t, par') == Links(t, par)[t.node := Links(t, par)[t.node].(prev := par')]
  {
  }

  /** Filling a hole with another node changes one link. */
  lemma Refill(c: Hole, hole: AvlNode?, hole': AvlNode?)
    requires !c.Top?
    ensures c.node in LinksAround(c, hole)
    ensures LinksAround(c, hole') ==
            LinksAround(c, hole)[c.node := if c.InLeft? then LinksAround(c, hole)[c.node].(left := hole')
                                           else LinksAround(c, hole)[c.node].(right := hole')]
  {
  }

  /** The height each node of `t` should store. */
  ghost function Heights(t: Shape): map<AvlNode, nat> {
    match t
    case Nil => map[]
    case Bin(l, n, r) => (Heights(l) + Heights(r))[n := Height(t)]
  }

  lemma HeightsKeys(t: Shape)
    ensures Heights(t).Keys == Nodes(t)
  {
  }

  ghost function Sides(c: Hole): set<AvlNode> {
    match c
    case Top => {}
    case InLeft(_, r, up) => Sides(up) + Nodes(r)
    case InRight(l, _, up) => Sides(up) + Nodes(l)
  }

  ghost function SideHeights(c: Hole): map<AvlNode, nat> {
    match c
    case Top => map[]
    case InLeft(_, r, up) => SideHeights(up) + Heights(r)
    case InRight(l, _, up) => SideHeights(up) + Heights(l)
  }

  lemma SidesAround(c: Hole)
    ensures Sides(c) <= Around(c)
  {
  }

  lemma SideKeys(c: Hole)
    ensures SideHeights(c).Keys == Sides(c)
  {
    if !c.Top? {
      HeightsKeys(if c.InLeft? then c.right else c.left);
    }
  }

  lemma {:induction false} TopOfPlug(c: Hole, t: Shape)
    ensures t.Bin? ==> Plug(c, t).Bin?
    ensures TopOf(Plug(c, t)) == if c.Top? then TopOf(t) else TopOf(Plug(c, Nil))
    decreases c
  {
    match c
    case Top =>
    case InLeft(n, r, up) => TopOfPlug(up, Bin(t, n, r)); TopOfPlug(up, Bin(Nil, n, r));
    case InRight(l, n, up) => TopOfPlug(up, Bin(l, n, t)); TopOfPlug(up, Bin(l, n, Nil));
  }

  lemma {:induction false} TopAround(c: Hole)
    requires !c.Top?
    ensures TopOf(Plug(c, Nil)) in Around(c)
    decreases c
  {
    var up := c.up;
    var u := if c.InLeft? then Bin(Nil, c.node, c.right) else Bin(c.left, c.node, Nil);
    TopOfPlug(up, u);
    if !up.Top? {
      TopAround(up);
    }
  }

  /** The links of a tree are those of its subtrees and of its top node. */
  lemma LinksParts(t: Shape, par: AvlNode?)
    requires t.Bin? && Distinct(t)
    ensures var m, l, r := Links(t, par), Links(t.left, t.node), Links(t.right, t.node);
            && m.Keys == Nodes(t) && l.Keys == Nodes(t.left) && r.Keys == Nodes(t.right)
            && Nodes(t) == Nodes(t.left) + {t.node} + Nodes(t.right)
            && t.node !in Nodes(t.left) && t.node !in Nodes(t.right) && Nodes(t.left) !! Nodes(t.right)
            && Distinct(t.left) && Distinct(t.right)
            && m[t.node] == Link(TopOf(t.left), TopOf(t.right), par)
            && (forall v :: v in Nodes(t.left) ==> m[v] == l[v])
            && (forall v :: v in Nodes(t.right) ==> m[v] == r[v])
  {
    LinksKeys(t, par);
    LinksKeys(t.left, t.node);
    LinksKeys(t.right, t.node);
  }

  /** Hanging a subtree under another node, link by link. */
  lemma RehangParts(t: Shape, par: AvlNode?, par': AvlNode?)
    requires Distinct(t)
    ensures Links(t, par).Keys == Nodes(t) == Links(t, par').Keys
    ensures t.Bin? ==> t.node in Nodes(t) && Links(t, par')[t.node] == Links(t, par)[t.node].(prev := par')
    ensures forall v :: v in Nodes(t) && v != TopOf(t) ==> Links(t, par')[v] == Links(t, par)[v]
  {
    LinksKeys(t, par);
    LinksKeys(t, par');
    if t.Bin? {
      Rehang(t, par, par');
    }
  }

  lemma RotationsDistinct(t: Shape)
    requires Distinct(t)
    ensures CanRight(t) ==> Distinct(RotRight(t))
    ensures CanLeft(t) ==> Distinct(RotLeft(t))
  {
  }

  /** The links that a rotation to the right leaves in the rotated subtree. */
  lemma RotRightLinks(t: Shape, par: AvlNode?)
    requires CanRight(t) && Distinct(t)
    ensures Nodes(RotRight(t)) == Nodes(t) && Distinct(RotRight(t))
    ensures var x, p, b := t.left.node, t.node, t.left.right; var m, m' := Links(t, par), Links(RotRight(t), par);
            && m.Keys == m'.Keys == Nodes(t)
            && m[p] == Link(x, TopOf(t.right), par) && m[x] == Link(TopOf(t.left.left), TopOf(b), p)
            && m'[p] == Link(TopOf(b), TopOf(t.right), x) && m'[x] == Link(TopOf(t.left.left), p, par)
            && (b.Bin? ==> b.node in m && m'[b.node] == m[b.node].(prev := p))
            && (forall v :: v in m && v != p && v != x && v != TopOf(b) ==> m'[v] == m[v])
  {
    hide Links, Nodes, Distinct;
    var x, p, b := t.left.node, t.node, t.left.right;
    RotationsDistinct(t);
    LinksParts(t, par);
    LinksParts(t.left, p);
    LinksParts(RotRight(t), par);
    LinksParts(RotRight(t).right, x);
    RehangParts(b, x, p);
  }

  lemma RotLeftLinks(t: Shape, par: AvlNode?)
    requires CanLeft(t) && Distinct(t)
    ensures Nodes(RotLeft(t)) == Nodes(t) && Distinct(RotLeft(t))
    ensures var x, p, b := t.right.node, t.node, t.right.left; var m, m' := Links(t, par), Links(RotLeft(t), par);
            && m.Keys == m'.Keys == Nodes(t)
            && m[p] == Link(TopOf(t.left), x, par) && m[x] == Link(TopOf(b), TopOf(t.right.right), p)
            && m'[p] == Link(TopOf(t.left), TopOf(b), x) && m'[x] == Link(p, TopOf(t.right.right), par)
            && (b.Bin? ==> b.node in m && m'[b.node] == m[b.node].(prev := p))
            && (forall v :: v in m && v != p && v != x && v != TopOf(b) ==> m'[v] == m[v])
  {
    hide Links, Nodes, Distinct;
    var x, p, b := t.right.node, t.node, t.right.left;
    RotationsDistinct(t);
    LinksParts(t, par);
    LinksParts(t.right, p);
    LinksParts(RotLeft(t), par);
    LinksParts(RotLeft(t).left, x);
    RehangParts(b, x, p);
  }

  /** Around a hole, only the link into the hole depends on what fills it. */
  ghost predicate SameAround(c: Hole, t: Shape, u: Shape, m: map<AvlNode, Link>, m': map<AvlNode, Link>) {
    && (forall v :: v in Around(c) ==> v in m && v in m')
    && (forall v :: v in Around(c) && v != ParOf(c) ==> m'[v] == m[v])
    && (c.InLeft? ==> c.node in Around(c) && m[c.node].left == TopOf(t) && m'[c.node] == m[c.node].(left := TopOf(u)))
    && (c.InRight? ==>
          c.node in Around(c) && m[c.node].right == TopOf(t) && m'[c.node] == m[c.node].(right := TopOf(u)))
  }

  lemma HoleLinks(c: Hole, t: Shape, u: Shape)
    ensures SameAround(c, t, u, LinksAround(c, TopOf(t)), LinksAround(c, TopOf(u)))
  {
    AroundKeys(c, TopOf(t));
    AroundKeys(c, TopOf(u));
    if !c.Top? {
      Refill(c, TopOf(t), TopOf(u));
    }
  }

  /** `m` restricted to the nodes of `t` is what `t` prescribes under `par`. */
  ghost predicate Inside(t: Shape, par: AvlNode?, m: map<AvlNode, Link>) {
    forall v :: v in Nodes(t) ==> v in m && v in Links(t, par) && m[v] == Links(t, par)[v]
  }

  lemma PlugSplits(c: Hole, t: Shape)
    requires Distinct(Plug(c, t))
    ensures var m := Links(Plug(c, t), null);
            && m.Keys == Around(c) + Nodes(t) && Inside(t, ParOf(c), m)
            && (forall v :: v in Around(c) ==> v in LinksAround(c, TopOf(t)) && m[v] == LinksAround(c, TopOf(t))[v])
    ensures Around(c) !! Nodes(t) && Apart(c) && Distinct(t)
  {
    PlugNodes(c, t);
    PlugLinks(c, t);
    LinksKeys(t, ParOf(c));
    AroundKeys(c, TopOf(t));
  }

  /** Exchanging the subtree in a hole for another one: the links of the whole
      tree are those around the hole, with one changed, and the new subtree's. */
  lemma ExchangeLinks(c: Hole, t: Shape, u: Shape)
    requires Distinct(Plug(c, t)) && Distinct(u) && Nodes(u) <= Nodes(t)
    ensures Distinct(Plug(c, u)) && Around(c) !! Nodes(t)
    ensures var m, m' := Links(Plug(c, t), null), Links(Plug(c, u), null);
            && m.Keys == Around(c) + Nodes(t) && m'.Keys == Around(c) + Nodes(u)
            && Inside(t, ParOf(c), m) && Inside(u, ParOf(c), m') && SameAround(c, t, u, m, m')
  {
    PlugNodes(c, t);
    PlugNodes(c, u);
    PlugSplits(c, t);
    PlugSplits(c, u);
    HoleLinks(c, t, u);
  }

  /** The links of the node above a rotation point to the new top. */
  ghost predicate Relinked(m: map<AvlNode, Link>, m': map<AvlNode, Link>, par: AvlNode?, p: AvlNode, x: AvlNode) {
    par != null ==>
      && par in m && par in m'
      && m'[par] == (if m[par].left == p then m[par].(left := x) else m[par].(right := x))
  }

  lemma NotLeftToo(c: Hole, t: Shape)
    requires Distinct(Plug(c, t)) && t.Bin? && c.InRight?
    ensures c.node in Links(Plug(c, t), null) && Links(Plug(c, t), null)[c.node].left != t.node
  {
    PlugSplits(c, t);
    assert Links(Plug(c, t), null)[c.node] == LinksAround(c, TopOf(t))[c.node];
    assert TopOf(c.left) != t.node;
  }

  /** A rotation to the right of the subtree in `c`, seen in the whole tree. */
  lemma TurnRightLinks(c: Hole, t: Shape)
    requires CanRight(t) && Distinct(Plug(c, t))
    ensures Distinct(Plug(c, RotRight(t))) && Nodes(Plug(c, RotRight(t))) == Nodes(Plug(c, t))
    ensures TopOf(Plug(c, RotRight(t))) == if c.Top? then t.left.node else TopOf(Plug(c, t))
    ensures var p, x, b, par := t.node, t.left.node, TopOf(t.left.right), ParOf(c);
            var m, m' := Links(Plug(c, t), null), Links(Plug(c, RotRight(t)), null);
            && m.Keys == m'.Keys == Nodes(Plug(c, t)) && p in m && x in m && p != x && par != p && par != x
            && m[p] == Link(x, TopOf(t.right), par) && m[x] == Link(TopOf(t.left.left), b, p)
            && m'[p] == Link(b, TopOf(t.right), x) && m'[x] == Link(TopOf(t.left.left), p, par)
            && (b != null ==> b in m && b != p && b != x && b != par && m'[b] == m[b].(prev := p))
            && Relinked(m, m', par, p, x)
            && (forall v :: v in m && v != p && v != x && v != b && v != par ==> m'[v] == m[v])
  {
    hide Links, LinksAround, Plug;
    var u := RotRight(t);
    PlugNodes(c, t);
    PlugNodes(c, u);
    RotRightLinks(t, ParOf(c));
    ExchangeLinks(c, t, u);
    TopOfPlug(c, t);
    TopOfPlug(c, u);
    if c.InRight? {
      NotLeftToo(c, t);
    }
  }

  lemma TurnLeftLinks(c: Hole, t: Shape)
    requires CanLeft(t) && Distinct(Plug(c, t))
    ensures Distinct(Plug(c, RotLeft(t))) && Nodes(Plug(c, RotLeft(t))) == Nodes(Plug(c, t))
    ensures TopOf(Plug(c, RotLeft(t))) == if c.Top? then t.right.node else TopOf(Plug(c, t))
    ensures var p, x, b, par := t.node, t.right.node, TopOf(t.right.left), ParOf(c);
            var m, m' := Links(Plug(c, t), null), Links(Plug(c, RotLeft(t)), null);
            && m.Keys == m'.Keys == Nodes(Plug(c, t)) && p in m && x in m && p != x && par != p && par != x
            && m[p] == Link(TopOf(t.left), x, par) && m[x] == Link(b, TopOf(t.right.right), p)
            && m'[p] == Link(TopOf(t.left), b, x) && m'[x] == Link(p, TopOf(t.right.right), par)
            && (b != null ==> b in m && b != p && b != x && b != par && m'[b] == m[b].(prev := p))
            && Relinked(m, m', par, p, x)
            && (forall v :: v in m && v != p && v != x && v != b && v != par ==> m'[v] == m[v])
  {
    hide Links, LinksAround, Plug;
    var u := RotLeft(t);
    PlugNodes(c, t);
    PlugNodes(c, u);
    RotLeftLinks(t, ParOf(c));
    ExchangeLinks(c, t, u);
    TopOfPlug(c, t);
    TopOfPlug(c, u);
    if c.InRight? {
      NotLeftToo(c, t);
    }
  }

  function Leaf(n: AvlNode): Shape { Bin(Nil, n, Nil) }

  lemma AddLink<K, V>(m: map<K, V>, n: K, v: V)
    ensures m + map[] == m && m + map[n := v] == m[n := v]
  {
  }

  /** Hanging a new leaf into an empty hole adds its links and changes one. */
  lemma AttachLinks(c: Hole, n: AvlNode)
    requires Distinct(Plug(c, Nil)) && n !in Nodes(Plug(c, Nil)) && !c.Top?
    ensures Distinct(Plug(c, Leaf(n))) && Nodes(Plug(c, Leaf(n))) == Nodes(Plug(c, Nil)) + {n}
    ensures TopOf(Plug(c, Leaf(n))) == TopOf(Plug(c, Nil))
    ensures var m := Links(Plug(c, Nil), null);
            && c.node in m && n !in m
            && Links(Plug(c, Leaf(n)), null)
               == m[c.node := if c.InLeft? then m[c.node].(left := n) else m[c.node].(right := n)]
                   [n := Link(null, null, c.node)]
  {
    assert Links(Leaf(n), c.node) == map[n := Link(null, null, c.node)];
    assert Links(Nil, c.node) == map[];
    assert Nodes(Nil) == {} && Distinct(Nil);
    assert Nodes(Leaf(n)) == {n} && Distinct(Leaf(n));
    hide *;
    PlugNodes(c, Nil);
    PlugNodes(c, Leaf(n));
    PlugLinks(c, Nil);
    PlugLinks(c, Leaf(n));
    Refill(c, null, n);
    AroundKeys(c, null);
    TopOfPlug(c, Leaf(n));
    AddLink(LinksAround(c, null), n, Link(null, null, c.node));
    AddLink(LinksAround(c, n), n, Link(null, null, c.node));
  }
}
