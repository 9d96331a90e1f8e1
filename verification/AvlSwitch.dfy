/** Exchanging two nodes of a tree, and how parent and child links agree.  The
    program exchanges the nodes themselves, not what they carry: every link to
    one of them has to name the other afterwards. */
module AvlSwitch {
  import opened AvlTree
  import opened AvlNodes
  import opened AvlOrder

  /** A child link and a parent link name each other, and nothing else does. */
  ghost predicate Agree(m: map<AvlNode, Link>, v: AvlNode, w: AvlNode)
    requires v in m && w in m
  {
    && (m[v].left == w || m[v].right == w <==> m[w].prev == v)
    && (m[v].left == w ==> m[v].right != w)
  }

  /** No link leads out of the tree, and only the top has `par` above it. */
  ghost predicate Within(m: map<AvlNode, Link>, v: AvlNode, top: AvlNode?, par: AvlNode?) {
    && v in m
    && (m[v].left == null || m[v].left in m) && (m[v].right == null || m[v].right in m)
    && (if v == top then m[v].prev == par else m[v].prev != null && m[v].prev in m)
  }

  lemma {:induction false} LinksWithin(t: Shape, par: AvlNode?)
    requires Distinct(t)
    ensures forall v :: v in Nodes(t) ==> Within(Links(t, par), v, TopOf(t), par)
  {
    LinksKeys(t, par);
    if t.Bin? {
      LinksKeys(t.left, t.node);
      LinksKeys(t.right, t.node);
      LinksWithin(t.left, t.node);
      LinksWithin(t.right, t.node);
    }
  }

  lemma {:induction false} LinksAgree(t: Shape, par: AvlNode?)
    requires Distinct(t) && (par == null || par !in Nodes(t))
    ensures Links(t, par).Keys == Nodes(t)
    ensures forall v, w :: v in Nodes(t) && w in Nodes(t) ==> Agree(Links(t, par), v, w)
  {
    LinksKeys(t, par);
    if t.Bin? {
      LinksKeys(t.left, t.node);
      LinksKeys(t.right, t.node);
      LinksWithin(t.left, t.node);
      LinksWithin(t.right, t.node);
      LinksAgree(t.left, t.node);
      LinksAgree(t.right, t.node);
      var m, ml, mr := Links(t, par), Links(t.left, t.node), Links(t.right, t.node);
      forall v, w | v in Nodes(t) && w in Nodes(t) ensures Agree(m, v, w) {
        if v in Nodes(t.left) {
          assert m[v] == ml[v] && Within(ml, v, TopOf(t.left), t.node);
        } else if v in Nodes(t.right) {
          assert m[v] == mr[v] && Within(mr, v, TopOf(t.right), t.node);
        }
        if w in Nodes(t.left) {
          assert m[w] == ml[w] && Within(ml, w, TopOf(t.left), t.node);
          assert v in Nodes(t.left) ==> Agree(ml, v, w);
        } else if w in Nodes(t.right) {
          assert m[w] == mr[w] && Within(mr, w, TopOf(t.right), t.node);
          assert v in Nodes(t.right) ==> Agree(mr, v, w);
        }
      }
    }
  }

  // -------------------------------------------------- exchanging two nodes

  function Swap(a: AvlNode, b: AvlNode, v: AvlNode): AvlNode {
    if v == a then b else if v == b then a else v
  }

  function SwapRef(a: AvlNode, b: AvlNode, v: AvlNode?): AvlNode? {
    if v == null then null else Swap(a, b, v)
  }

  function SwapLink(a: AvlNode, b: AvlNode, l: Link): Link {
    Link(SwapRef(a, b, l.left), SwapRef(a, b, l.right), SwapRef(a, b, l.prev))
  }

  ghost function Relabel(a: AvlNode, b: AvlNode, t: Shape): Shape {
    match t
    case Nil => Nil
    case Bin(l, n, r) => Bin(Relabel(a, b, l), Swap(a, b, n), Relabel(a, b, r))
  }

  lemma {:induction false} RelabelNodes(a: AvlNode, b: AvlNode, t: Shape)
    ensures forall v :: v in Nodes(Relabel(a, b, t)) <==> Swap(a, b, v) in Nodes(t)
    ensures Distinct(t) ==> Distinct(Relabel(a, b, t))
    ensures TopOf(Relabel(a, b, t)) == SwapRef(a, b, TopOf(t))
    ensures a !in Nodes(t) && b !in Nodes(t) ==> Relabel(a, b, t) == t
  {
    if t.Bin? {
      RelabelNodes(a, b, t.left);
      RelabelNodes(a, b, t.right);
      if Distinct(t) {
        forall v | v in Nodes(Relabel(a, b, t.left)) ensures v !in Nodes(Relabel(a, b, t.right)) {
          assert Swap(a, b, v) in Nodes(t.left);
        }
      }
    }
  }

  /** The links of the relabelled tree are the relabelled links. */
  lemma {:induction false} RelabelLinks(a: AvlNode, b: AvlNode, t: Shape, par: AvlNode?)
    requires Distinct(t)
    ensures var m, m' := Links(t, par), Links(Relabel(a, b, t), SwapRef(a, b, par));
            forall v :: v in m' <==> Swap(a, b, v) in m
    ensures var m, m' := Links(t, par), Links(Relabel(a, b, t), SwapRef(a, b, par));
            forall v :: v in m' ==> Swap(a, b, v) in m && m'[v] == SwapLink(a, b, m[Swap(a, b, v)])
  {
    LinksKeys(t, par);
    LinksKeys(Relabel(a, b, t), SwapRef(a, b, par));
    RelabelNodes(a, b, t);
    if t.Bin? {
      var n' := Swap(a, b, t.node);
      LinksKeys(t.left, t.node);
      LinksKeys(t.right, t.node);
      LinksKeys(Relabel(a, b, t.left), n');
      LinksKeys(Relabel(a, b, t.right), n');
      RelabelNodes(a, b, t.left);
      RelabelNodes(a, b, t.right);
      RelabelLinks(a, b, t.left, t.node);
      RelabelLinks(a, b, t.right, t.node);
    }
  }

  ghost function RelabelHole(a: AvlNode, b: AvlNode, c: Hole): Hole {
    match c
    case Top => Top
    case InLeft(n, r, up) => InLeft(Swap(a, b, n), Relabel(a, b, r), RelabelHole(a, b, up))
    case InRight(l, n, up) => InRight(Relabel(a, b, l), Swap(a, b, n), RelabelHole(a, b, up))
  }

  lemma {:induction false} RelabelPlug(a: AvlNode, b: AvlNode, c: Hole, t: Shape)
    ensures Relabel(a, b, Plug(c, t)) == Plug(RelabelHole(a, b, c), Relabel(a, b, t))
    ensures a !in Around(c) && b !in Around(c) ==> RelabelHole(a, b, c) == c
    decreases c
  {
    match c
    case Top =>
    case InLeft(n, r, up) =>
      RelabelPlug(a, b, up, Bin(t, n, r));
      RelabelNodes(a, b, r);
    case InRight(l, n, up) =>
      RelabelPlug(a, b, up, Bin(l, n, t));
      RelabelNodes(a, b, l);
  }

  // --------------------------------------------------- the successor's hole

  lemma {:induction false} FollowPlug(d: Hole, c: Hole, t: Shape)
    ensures Plug(Follow(d, c), t) == Plug(c, Plug(d, t))
    ensures Sides(Follow(d, c)) == Sides(d) + Sides(c)
    decreases d
  {
    match d
    case Top =>
    case InLeft(n, r, up) => FollowPlug(up, c, Bin(t, n, r));
    case InRight(l, n, up) => FollowPlug(up, c, Bin(l, n, t));
  }

  /** `a` with two children, and its successor `b` at the end of `d`. */
  ghost function WithSuccessor(c: Hole, l: Shape, a: AvlNode, d: Hole, b: AvlNode, r: Shape): Shape {
    Plug(c, Bin(l, a, Plug(d, Bin(Nil, b, r))))
  }

  /** Relabelling exchanges a node with its successor and moves nothing else. */
  lemma SwitchIsRelabel(c: Hole, l: Shape, a: AvlNode, d: Hole, b: AvlNode, r: Shape)
    requires Distinct(WithSuccessor(c, l, a, d, b, r))
    ensures Relabel(a, b, WithSuccessor(c, l, a, d, b, r)) == WithSuccessor(c, l, b, d, a, r)
    ensures Distinct(WithSuccessor(c, l, b, d, a, r))
    ensures a != b && Nodes(WithSuccessor(c, l, b, d, a, r)) == Nodes(WithSuccessor(c, l, a, d, b, r))
  {
    var t := Plug(d, Bin(Nil, b, r));
    PlugNodes(c, Bin(l, a, t));
    PlugNodes(d, Bin(Nil, b, r));
    RelabelPlug(a, b, c, Bin(l, a, t));
    RelabelPlug(a, b, d, Bin(Nil, b, r));
    RelabelNodes(a, b, l);
    RelabelNodes(a, b, r);
    RelabelNodes(a, b, WithSuccessor(c, l, a, d, b, r));
    PlugNodes(c, Bin(l, b, Plug(d, Bin(Nil, a, r))));
    PlugNodes(d, Bin(Nil, a, r));
  }

  /** The links after the exchange are the old ones with the two names exchanged. */
  lemma SwitchLinks(c: Hole, l: Shape, a: AvlNode, d: Hole, b: AvlNode, r: Shape)
    requires Distinct(WithSuccessor(c, l, a, d, b, r))
    ensures var w, w' := WithSuccessor(c, l, a, d, b, r), WithSuccessor(c, l, b, d, a, r);
            && a != b && Distinct(w') && Nodes(w') == Nodes(w) && TopOf(w') == SwapRef(a, b, TopOf(w))
            && Links(w, null).Keys == Links(w', null).Keys == Nodes(w) && a in Links(w, null) && b in Links(w, null)
            && Links(w', null)[a] == SwapLink(a, b, Links(w, null)[b])
            && Links(w', null)[b] == SwapLink(a, b, Links(w, null)[a])
            && (forall v :: v in Links(w, null) && v != a && v != b ==>
                Links(w', null)[v] == SwapLink(a, b, Links(w, null)[v]))
  {
    hide Links;
    var w, w' := WithSuccessor(c, l, a, d, b, r), WithSuccessor(c, l, b, d, a, r);
    SwitchIsRelabel(c, l, a, d, b, r);
    RelabelNodes(a, b, w);
    RelabelLinks(a, b, w, null);
    LinksKeys(w, null);
    LinksKeys(w', null);
    PlugNodes(c, Bin(l, a, Plug(d, Bin(Nil, b, r))));
    PlugNodes(d, Bin(Nil, b, r));
    var m, m' := Links(w, null), Links(w', null);
    assert a in m' && b in m';
    assert Swap(a, b, a) == b && Swap(a, b, b) == a;
    forall v | v in m && v != a && v != b ensures m'[v] == SwapLink(a, b, m[v]) {
      assert Swap(a, b, v) == v;
    }
  }

  // ------------------------------------------------------------ cutting out

  /** What is left of a node with at most one child when it is cut out. */
  ghost function OnlyChild(t: Shape): Shape
    requires t.Bin? && (t.left.Nil? || t.right.Nil?)
  {
    if t.left.Bin? then t.left else t.right
  }

  /** Cutting out a node with at most one child changes at most two links. */
  lemma CutLinks(c: Hole, t: Shape)
    requires Distinct(Plug(c, t)) && t.Bin? && (t.left.Nil? || t.right.Nil?)
    ensures var u := OnlyChild(t);
            && Distinct(Plug(c, u)) && Nodes(Plug(c, u)) == Nodes(Plug(c, t)) - {t.node}
            && TopOf(Plug(c, u)) == if c.Top? then TopOf(u) else TopOf(Plug(c, t))
    ensures var u := OnlyChild(t); var n, par, rep := t.node, ParOf(c), TopOf(u);
            var m, m' := Links(Plug(c, t), null), Links(Plug(c, u), null);
            && m.Keys == Nodes(Plug(c, t)) && m'.Keys == Nodes(Plug(c, t)) - {n} && par != n && rep != n
            && (par == rep ==> par == null)
            && (rep != null ==> rep in m && rep in m' && m'[rep] == m[rep].(prev := par))
            && (par != null ==>
                  && par in m && par in m'
                  && m'[par] == if m[par].left == n then m[par].(left := rep) else m[par].(right := rep))
            && (forall v :: v in m' && v != par && v != rep ==> v in m && m'[v] == m[v])
  {
    hide Links, LinksAround, Plug, Distinct;
    var u, n := OnlyChild(t), t.node;
    PlugNodes(c, t);
    CutParts(t, ParOf(c));
    PlugNodes(c, u);
    ExchangeLinks(c, t, u);
    TopOfPlug(c, t);
    TopOfPlug(c, u);
    LinksKeys(u, n);
    LinksKeys(u, ParOf(c));
    if u.Bin? {
      Rehang(u, n, ParOf(c));
    }
    if c.InRight? {
      NotLeftToo(c, t);
    }
  }

  lemma CutParts(t: Shape, par: AvlNode?)
    requires Distinct(t) && t.Bin? && (t.left.Nil? || t.right.Nil?)
    ensures var u := OnlyChild(t); Nodes(u) == Nodes(t) - {t.node} && Distinct(u)
    ensures var u := OnlyChild(t);
            forall v :: v in Nodes(u) ==>
              v in Links(u, t.node) && v in Links(t, par) && Links(t, par)[v] == Links(u, t.node)[v]
  {
    LinksKeys(t, par);
    LinksKeys(t.left, t.node);
    LinksKeys(t.right, t.node);
  }

  // ------------------------------------------- what the switch leaves alone

  lemma {:induction false} RelabelBalance(a: AvlNode, b: AvlNode, t: Shape)
    ensures Height(Relabel(a, b, t)) == Height(t)
    ensures Balanced(Relabel(a, b, t)) == Balanced(t)
  {
    if t.Bin? {
      RelabelBalance(a, b, t.left);
      RelabelBalance(a, b, t.right);
    }
  }

  lemma {:induction false} FollowSides(d: Hole, c: Hole, c': Hole)
    requires Sides(c) == Sides(c') && SideHeights(c) == SideHeights(c')
    ensures Sides(Follow(d, c)) == Sides(Follow(d, c'))
    ensures SideHeights(Follow(d, c)) == SideHeights(Follow(d, c'))
  {
    if !d.Top? {
      FollowSides(d.up, c, c');
    }
  }

  /** Neither of the two nodes is in a subtree beside the way. */
  lemma SidesApart(c: Hole, l: Shape, a: AvlNode, d: Hole, b: AvlNode, r: Shape)
    requires Distinct(WithSuccessor(c, l, a, d, b, r))
    ensures var h := Follow(d, InRight(l, a, c));
            && a !in Sides(h) && b !in Sides(h) && a !in Nodes(r) && b !in Nodes(r)
            && Sides(h) + Nodes(r) <= Nodes(WithSuccessor(c, l, a, d, b, r))
  {
    var t := Bin(Nil, b, r);
    PlugNodes(c, Bin(l, a, Plug(d, t)));
    PlugNodes(d, t);
    FollowPlug(d, InRight(l, a, c), t);
    SidesAround(c);
    SidesAround(d);
  }

  lemma {:induction false} AllLeftBefore(d: Hole)
    requires AllLeft(d)
    ensures Before(d) == []
  {
    if !d.Top? {
      AllLeftBefore(d.up);
    }
  }

  lemma SortedWithout(x: seq<AvlNode>, n: AvlNode, y: seq<AvlNode>)
    requires Sorted(x + [n] + y)
    ensures Sorted(x + y)
  {
    SortedAround(x, n, y);
    SortedSplit(x, y);
  }

  lemma SortedWithoutInside(p: seq<AvlNode>, x: seq<AvlNode>, n: AvlNode, y: seq<AvlNode>, q: seq<AvlNode>)
    requires Sorted(p + (x + [n] + y) + q)
    ensures Sorted(p + (x + y) + q)
  {
    assert p + (x + [n] + y) + q == (p + x) + [n] + (y + q);
    SortedWithout(p + x, n, y + q);
    assert p + (x + y) + q == (p + x) + (y + q);
  }

  /** Cutting out a node with at most one child removes it from the order and
      lowers its subtree by one. */
  lemma CutOrder(c: Hole, t: Shape)
    requires Ordered(Plug(c, t)) && t.Bin? && (t.left.Nil? || t.right.Nil?)
    ensures Ordered(Plug(c, OnlyChild(t))) && |InOrder(Plug(c, OnlyChild(t)))| == |InOrder(Plug(c, t))| - 1
    ensures Balanced(t) ==> Shrunk(t, OnlyChild(t))
  {
    PlugInOrder(c, t);
    PlugInOrder(c, OnlyChild(t));
    assert InOrder(OnlyChild(t)) == InOrder(t.left) + InOrder(t.right);
    SortedWithoutInside(Before(c), InOrder(t.left), t.node, InOrder(t.right), After(c));
  }

  lemma SwitchedSeqs(p: seq<AvlNode>, l: seq<AvlNode>, a: AvlNode, b: AvlNode, r: seq<AvlNode>, d: seq<AvlNode>,
      q: seq<AvlNode>)
    ensures var before, after := p + (l + [a] + ([] + ([] + [b] + r) + d)) + q, p + (l + [b] + ([] + r + d)) + q;
            (Sorted(before) ==> Sorted(after)) && |after| == |before| - 1
  {
    var before, after := p + (l + [a] + ([] + ([] + [b] + r) + d)) + q, p + (l + [b] + ([] + r + d)) + q;
    assert before == p + (l + [a] + ([b] + r + d)) + q;
    if Sorted(before) {
      SortedWithoutInside(p, l, a, [b] + r + d, q);
      assert after == p + (l + ([b] + r + d)) + q;
    }
  }

  /** Exchanging a node with its successor and cutting it out there removes it
      from the order; the successor moves to its place. */
  lemma SwitchedCutOrder(c: Hole, l: Shape, a: AvlNode, d: Hole, b: AvlNode, r: Shape)
    requires AllLeft(d) && Ordered(WithSuccessor(c, l, a, d, b, r))
    ensures var h := Follow(d, InRight(l, b, c));
            Ordered(Plug(h, r)) && |InOrder(Plug(h, r))| == |InOrder(WithSuccessor(c, l, a, d, b, r))| - 1
  {
    var t := Plug(d, Bin(Nil, b, r));
    FollowPlug(d, InRight(l, b, c), r);
    assert Plug(InRight(l, b, c), Plug(d, r)) == Plug(c, Bin(l, b, Plug(d, r)));
    PlugInOrder(c, Bin(l, a, t));
    PlugInOrder(c, Bin(l, b, Plug(d, r)));
    PlugInOrder(d, Bin(Nil, b, r));
    PlugInOrder(d, r);
    AllLeftBefore(d);
    SwitchedSeqs(Before(c), InOrder(l), a, b, InOrder(r), After(d), After(c));
  }

  lemma SwitchedCutBalance(c: Hole, l: Shape, a: AvlNode, d: Hole, b: AvlNode, r: Shape)
    requires Distinct(WithSuccessor(c, l, a, d, b, r)) && Balanced(WithSuccessor(c, l, a, d, b, r))
    ensures Balanced(Plug(Follow(d, InRight(l, b, c)), Bin(Nil, a, r))) && Shrunk(Bin(Nil, a, r), r)
  {
    SwitchIsRelabel(c, l, a, d, b, r);
    RelabelBalance(a, b, WithSuccessor(c, l, a, d, b, r));
    FollowPlug(d, InRight(l, b, c), Bin(Nil, a, r));
    PlugParts(Follow(d, InRight(l, b, c)), Bin(Nil, a, r));
    Whole(Nil, a, r);
  }
}
