/** A red-black tree with parent pointers and one shared sentinel, updated in place. */
module RedBlackTrees {
  import opened Arithmetic
  import opened Sets

  datatype Color = Red | Black
  datatype Hand = OnLeft | OnRight

  ghost predicate StrictTotalOrder<K(!new)>(less: (K, K) -> bool) {
    && (forall a, b :: less(a, b) ==> !less(b, a))
    && (forall a, b :: a == b || less(a, b) || less(b, a))
    && (forall a, b, c :: less(a, b) && less(b, c) ==> less(a, c))
  }

  class RBNode<K(0), V(0)> {
    const Key: K
    const Value: V
    var Color: Color
    var Left: RBNode?<K, V>
    var Right: RBNode?<K, V>
    var Parent: RBNode?<K, V>

    // A node stands at position `pos` of the in-order line, and everything in
    // its subtree stands strictly between `lo` and `hi`.
    ghost var lo: real
    ghost var pos: real
    ghost var hi: real
    // Black nodes on any path from here down to the sentinel, this node included.
    ghost var bh: nat

    /** The sentinel: black, with no links at all. */
    constructor Sentinel()
      ensures Color == Black && Left == null && Right == null && Parent == null && bh == 0
    {
      Color := Black;
      Left, Right, Parent := null, null, null;
      bh := 0;
    }

    constructor (key: K, value: V, sentinel: RBNode<K, V>)
      ensures Key == key && Value == value && Color == Red
      ensures Left == sentinel && Right == sentinel && Parent == sentinel
    {
      Key, Value, Color := key, value, Red;
      Left, Right, Parent := sentinel, sentinel, sentinel;
    }
  }

  class RedBlackTree<K(0,==,!new), V(0)> {
    const less: (K, K) -> bool
    var Root: RBNode<K, V>
    const Nil: RBNode<K, V>
    // The nodes of the tree, and the same nodes in in-order.
    ghost var Nodes: set<RBNode<K, V>>
    ghost var Order: seq<RBNode<K, V>>

    constructor (less: (K, K) -> bool)
      requires StrictTotalOrder(less)
      ensures Valid() && Nodes == {} && Order == [] && fresh(Nil) && this.less == less
    {
      var sentinel := new RBNode<K, V>.Sentinel();
      this.less := less;
      Root, Nil := sentinel, sentinel;
      Nodes, Order := {}, [];
    }

    // ---- Shape ----------------------------------------------------------

    ghost predicate Local(n: RBNode<K, V>)
      reads this`Root, this`Nodes, Nodes`Left, Nodes`Right, Nodes`Parent, Nodes`lo, Nodes`pos, Nodes`hi, n`Left,
        n`Right, n`Parent, n`lo, n`pos, n`hi
    {
      && n.lo < n.pos < n.hi
      && (n.Left == Nil ||
          (n.Left != null && n.Left in Nodes && n.Left.Parent == n && n.lo <= n.Left.lo && n.Left.hi <= n.pos))
      && (n.Right == Nil ||
          (n.Right != null && n.Right in Nodes && n.Right.Parent == n && n.pos <= n.Right.lo && n.Right.hi <= n.hi))
      && (if n == Root then n.Parent == Nil
          else n.Parent != null && n.Parent in Nodes && (n.Parent.Left == n || n.Parent.Right == n))
    }

    ghost predicate Inside(n: RBNode<K, V>, m: RBNode<K, V>)
      reads n`lo, n`hi, m`pos
    {
      n.lo < m.pos < n.hi
    }

    ghost predicate Distinct(n: RBNode<K, V>, m: RBNode<K, V>)
      reads n`pos, m`pos
    {
      n.pos == m.pos ==> n == m
    }

    // Whatever stands on one side of n, inside n's interval, is inside the child on that side.
    ghost predicate Covered(n: RBNode<K, V>, m: RBNode<K, V>)
      reads this`Nodes, Nodes`lo, Nodes`hi, n`Left, n`Right, n`lo, n`pos, n`hi, m`pos
    {
      && (n.lo < m.pos < n.pos ==> n.Left != null && n.Left in Nodes && Inside(n.Left, m))
      && (n.pos < m.pos < n.hi ==> n.Right != null && n.Right in Nodes && Inside(n.Right, m))
    }

    ghost predicate Shape()
      reads this`Root, this`Nodes, Nodes`Left, Nodes`Right, Nodes`Parent, Nodes`lo, Nodes`pos, Nodes`hi, Nil`Left,
        Nil`Right
    {
      && Nil !in Nodes && Nil.Left == null && Nil.Right == null
      && (Root == Nil ==> Nodes == {}) && (Root != Nil ==> Root in Nodes)
      && (forall m {:trigger Inside(Root, m)} :: m in Nodes ==> Inside(Root, m))
      && (forall n {:trigger Local(n)} :: n in Nodes ==> Local(n))
      && (forall n, m {:trigger Covered(n, m)} :: n in Nodes && m in Nodes ==> Covered(n, m))
      && (forall n, m {:trigger Distinct(n, m)} :: n in Nodes && m in Nodes ==> Distinct(n, m))
    }

    // ---- Rotations ------------------------------------------------------

    // The nodes and their positions are the ones before.
    twostate predicate Positions()
      reads this`Nodes, Nodes`pos
    {
      Nodes == old(Nodes) && forall n {:trigger n.pos} :: n in Nodes ==> n.pos == old(n.pos)
    }

    // The link that pointed down to u points to v instead; nothing else changes.
    twostate predicate LeftRelinked(u: RBNode<K, V>, v: RBNode<K, V>)
      reads this`Root, this`Nodes, Nodes`Left, Nodes`Right
    {
      var p := old(u.Parent);
      && (p == Nil ==> Root == v)
      && (p != Nil ==>
            && Root == old(Root)
            && p != null && p in Nodes
            && (if old(p.Left) == u then p.Left == v && p.Right == old(p.Right)
                else p.Right == v && p.Left == old(p.Left)))
    }

    method leftRelink(u: RBNode<K, V>, v: RBNode<K, V>)
      requires u.Parent == Nil || (u.Parent != null && u.Parent in Nodes)
      modifies this`Root
      modifies (if u.Parent == Nil then {} else {u.Parent})`Left, (if u.Parent == Nil then {} else {u.Parent})`Right
      ensures LeftRelinked(u, v)
    {
      if u.Parent == Nil {
        Root := v;
      } else if u == u.Parent.Left {
        u.Parent.Left := v;
      } else {
        u.Parent.Right := v;
      }
    }

    // What a left rotation at x, whose right child is y, does to the links and the intervals.
    twostate predicate LeftRotated(x: RBNode<K, V>, y: RBNode<K, V>)
      reads this`Root, this`Nodes, Nodes`Left, Nodes`Right, Nodes`Parent, Nodes`lo, Nodes`pos, Nodes`hi
    {
      && Nodes == old(Nodes) && x in Nodes && y in Nodes && x != y
      && old(x.Right) == y
      && LeftRelinked(x, y)
      && x.Left == old(x.Left) && x.Right == old(y.Left) && x.Parent == y
      && y.Left == x && y.Right == old(y.Right) && y.Parent == old(x.Parent)
      && x.lo == old(x.lo) && x.hi == y.pos && y.lo == old(x.lo) && y.hi == old(x.hi)
      && (forall n {:trigger n in Nodes} :: n in Nodes && n != x && n != y ==>
            && (n != old(x.Parent) ==> n.Left == old(n.Left) && n.Right == old(n.Right))
            && n.Parent == (if n == old(y.Left) then x else old(n.Parent))
            && n.lo == old(n.lo) && n.hi == old(n.hi))
    }

    twostate lemma LeftRotatedLocal(new x: RBNode<K, V>, new y: RBNode<K, V>, new n: RBNode<K, V>)
      requires old(Shape()) && {x, y, n} <= old(Nodes)
      requires LeftRotated(x, y)&& Positions()
      ensures Local(n)
    {
      assert old(Local(x)) && old(Local(y)) && old(Local(n));
      assert old(y.Left != Nil ==> Local(y.Left));
    }

    twostate lemma LeftRotatedCovered(new x: RBNode<K, V>, new y: RBNode<K, V>, new n: RBNode<K, V>,
                                      new m: RBNode<K, V>)
      requires old(Shape()) && {x, y, n, m} <= old(Nodes)
      requires LeftRotated(x, y) && Positions()
      ensures Covered(n, m)
    {
      assert old(Local(x)) && old(Local(y)) && old(Local(n));
      assert old(Covered(n, m)) && old(Covered(x, m)) && old(Covered(y, m));
    }

    twostate lemma LeftRotatedShape(new x: RBNode<K, V>, new y: RBNode<K, V>)
      requires old(Shape()) && {x, y} <= old(Nodes)
      requires LeftRotated(x, y) && Positions() && Nil.Left == null && Nil.Right == null
      ensures Shape()
    {
      assert old(Local(x)) && old(Local(y));
      forall n {:trigger Local(n)} | n in Nodes ensures Local(n) { LeftRotatedLocal(x, y, n); }
      forall n, m {:trigger Covered(n, m)} | n in Nodes && m in Nodes
        ensures Covered(n, m)
      {
        LeftRotatedCovered(x, y, n, m);
      }
      forall m {:trigger Inside(Root, m)} | m in Nodes ensures Inside(Root, m) { assert old(Inside(Root, m)); }
      forall n, m {:trigger Distinct(n, m)} | n in Nodes && m in Nodes
        ensures Distinct(n, m)
      {
        assert old(Distinct(n, m));
      }
    }

    method leftRotate(x: RBNode<K, V>)
      requires Shape() && x in Nodes && x.Right != Nil
      modifies this`Root, Nodes`Left, Nodes`Right, Nodes`Parent, Nodes`lo, Nodes`hi
      ensures old(x.Right) != null && LeftRotated(x, old(x.Right)) && Shape()
    {
      assert Local(x);
      var y := x.Right;
      assert Local(y);
      x.Right := y.Left;
      if y.Left != Nil {
        y.Left.Parent := x;
      }
      y.Parent := x.Parent;
      leftRelink(x, y);
      y.Left := x;
      x.Parent := y;
      y.lo, y.hi := x.lo, x.hi;
      x.hi := y.pos;
      assert Positions();
      LeftRotatedShape(x, y);
    }

    // The link that pointed down to u points to v instead; nothing else changes.
    twostate predicate RightRelinked(u: RBNode<K, V>, v: RBNode<K, V>)
      reads this`Root, this`Nodes, Nodes`Right, Nodes`Left
    {
      var p := old(u.Parent);
      && (p == Nil ==> Root == v)
      && (p != Nil ==>
            && Root == old(Root)
            && p != null && p in Nodes
            && (if old(p.Right) == u then p.Right == v && p.Left == old(p.Left)
                else p.Left == v && p.Right == old(p.Right)))
    }

    method rightRelink(u: RBNode<K, V>, v: RBNode<K, V>)
      requires u.Parent == Nil || (u.Parent != null && u.Parent in Nodes)
      modifies this`Root
      modifies (if u.Parent == Nil then {} else {u.Parent})`Right, (if u.Parent == Nil then {} else {u.Parent})`Left
      ensures RightRelinked(u, v)
    {
      if u.Parent == Nil {
        Root := v;
      } else if u == u.Parent.Right {
        u.Parent.Right := v;
      } else {
        u.Parent.Left := v;
      }
    }

    // What a right rotation at x, whose left child is y, does to the links and the intervals.
    twostate predicate RightRotated(x: RBNode<K, V>, y: RBNode<K, V>)
      reads this`Root, this`Nodes, Nodes`Right, Nodes`Left, Nodes`Parent, Nodes`lo, Nodes`pos, Nodes`hi
    {
      && Nodes == old(Nodes) && x in Nodes && y in Nodes && x != y
      && old(x.Left) == y
      && RightRelinked(x, y)
      && x.Right == old(x.Right) && x.Left == old(y.Right) && x.Parent == y
      && y.Right == x && y.Left == old(y.Left) && y.Parent == old(x.Parent)
      && x.hi == old(x.hi) && x.lo == y.pos && y.hi == old(x.hi) && y.lo == old(x.lo)
      && (forall n {:trigger n in Nodes} :: n in Nodes && n != x && n != y ==>
            && (n != old(x.Parent) ==> n.Right == old(n.Right) && n.Left == old(n.Left))
            && n.Parent == (if n == old(y.Right) then x else old(n.Parent))
            && n.hi == old(n.hi) && n.lo == old(n.lo))
    }

    twostate lemma RightRotatedLocal(new x: RBNode<K, V>, new y: RBNode<K, V>, new n: RBNode<K, V>)
      requires old(Shape()) && {x, y, n} <= old(Nodes)
      requires RightRotated(x, y)&& Positions()
      ensures Local(n)
    {
      assert old(Local(x)) && old(Local(y)) && old(Local(n));
      assert old(y.Right != Nil ==> Local(y.Right));
    }

    twostate lemma RightRotatedCovered(new x: RBNode<K, V>, new y: RBNode<K, V>, new n: RBNode<K, V>,
                                       new m: RBNode<K, V>)
      requires old(Shape()) && {x, y, n, m} <= old(Nodes)
      requires RightRotated(x, y) && Positions()
      ensures Covered(n, m)
    {
      assert old(Local(x)) && old(Local(y)) && old(Local(n));
      assert old(Covered(n, m)) && old(Covered(x, m)) && old(Covered(y, m));
    }

    twostate lemma RightRotatedShape(new x: RBNode<K, V>, new y: RBNode<K, V>)
      requires old(Shape()) && {x, y} <= old(Nodes)
      requires RightRotated(x, y) && Positions() && Nil.Right == null && Nil.Left == null
      ensures Shape()
    {
      assert old(Local(x)) && old(Local(y));
      forall n {:trigger Local(n)} | n in Nodes ensures Local(n) { RightRotatedLocal(x, y, n); }
      forall n, m {:trigger Covered(n, m)} | n in Nodes && m in Nodes
        ensures Covered(n, m)
      {
        RightRotatedCovered(x, y, n, m);
      }
      forall m {:trigger Inside(Root, m)} | m in Nodes ensures Inside(Root, m) { assert old(Inside(Root, m)); }
      forall n, m {:trigger Distinct(n, m)} | n in Nodes && m in Nodes
        ensures Distinct(n, m)
      {
        assert old(Distinct(n, m));
      }
    }

    method rightRotate(x: RBNode<K, V>)
      requires Shape() && x in Nodes && x.Left != Nil
      modifies this`Root, Nodes`Right, Nodes`Left, Nodes`Parent, Nodes`lo, Nodes`hi
      ensures old(x.Left) != null && RightRotated(x, old(x.Left)) && Shape()
    {
      assert Local(x);
      var y := x.Left;
      assert Local(y);
      x.Left := y.Right;
      if y.Right != Nil {
        y.Right.Parent := x;
      }
      y.Parent := x.Parent;
      rightRelink(x, y);
      y.Right := x;
      x.Parent := y;
      y.hi, y.lo := x.hi, x.lo;
      x.lo := y.pos;
      assert Positions();
      RightRotatedShape(x, y);
    }

    // ---- Colours --------------------------------------------------------

    ghost predicate Linked(n: RBNode<K, V>)
      reads this`Nodes, n`Left, n`Right
    {
      n.Left != null && n.Left in Nodes + {Nil} && n.Right != null && n.Right in Nodes + {Nil}
    }

    // A red node has black children, except that z may be red anywhere.
    ghost predicate RedFree(n: RBNode<K, V>, z: RBNode?<K, V>)
      reads this`Nodes, n`Left, n`Right, n`Color, Nodes`Color, Nil`Color
    {
      && Linked(n)
      && (n.Color == Red ==> (n.Left == z || n.Left.Color == Black) && (n.Right == z || n.Right.Color == Black))
    }

    ghost predicate Balanced(n: RBNode<K, V>)
      reads this`Nodes, n`Left, n`Right, n`Color, n`bh, Nodes`bh, Nil`bh
    {
      && Linked(n)
      && n.Left.bh == n.Right.bh
      && n.bh == n.Left.bh + (if n.Color == Black then 1 else 0)
    }

    // The red-black rules, except that z may be a red root or have a red parent.
    ghost predicate Coloured(z: RBNode?<K, V>)
      reads this`Root, this`Nodes, Nil`Color, Nil`bh, Root`Color
      reads Nodes`Left, Nodes`Right, Nodes`Color, Nodes`bh
    {
      && Nil.Color == Black && Nil.bh == 0
      && (Root == z || Root.Color == Black)
      && (forall n {:trigger RedFree(n, z)} :: n in Nodes ==> RedFree(n, z))
      && (forall n {:trigger Balanced(n)} :: n in Nodes ==> Balanced(n))
    }

    // ---- Insertion ------------------------------------------------------

    ghost function Below(n: RBNode<K, V>): set<RBNode<K, V>>
      reads this`Nodes, Nodes`pos, n`lo, n`hi
    {
      set m | m in Nodes && Inside(n, m)
    }

    // z may be red under a red parent p, whose parent is g.
    ghost predicate RedPair(z: RBNode<K, V>, p: RBNode<K, V>, g: RBNode<K, V>)
      reads this`Root, this`Nodes, Nodes`Left, Nodes`Right, Nodes`Parent, Nodes`Color, Nodes`bh, Nodes`lo, Nodes`pos,
        Nodes`hi
      reads Nil`Left, Nil`Right, Nil`Color, Nil`bh, Root`Color
    {
      && Shape() && Coloured(z)
      && z in Nodes && p in Nodes && g in Nodes && z.Parent == p && p.Parent == g
      && z.Color == Red && p.Color == Red
    }

    lemma Grandparent(z: RBNode<K, V>)
      requires Shape() && Coloured(z) && z in Nodes && z.Color == Red
      requires z.Parent != null && z.Parent.Color == Red
      ensures z.Parent in Nodes && z.Parent.Parent != null && RedPair(z, z.Parent, z.Parent.Parent)
    {
      assert Local(z) && Local(z.Parent);
    }

    twostate predicate Pushed(p: RBNode<K, V>, g: RBNode<K, V>, y: RBNode<K, V>)
      reads this`Nodes, Nodes`Color, Nodes`bh
    {
      && Nodes == old(Nodes) && p in Nodes && g in Nodes && y in Nodes
      && p.Color == Black && y.Color == Black && g.Color == Red
      && p.bh == old(p.bh) + 1 && y.bh == old(y.bh) + 1 && g.bh == old(g.bh)
      && (forall n {:trigger n.Color} {:trigger n.bh} :: n in Nodes && n != p && n != g && n != y ==>
            n.Color == old(n.Color) && n.bh == old(n.bh))
    }

    twostate lemma PushedNode(new z: RBNode<K, V>, new p: RBNode<K, V>, new g: RBNode<K, V>, new y: RBNode<K, V>,
                              new n: RBNode<K, V>)
      requires {z, p, g, y, n} <= old(Nodes) && old(RedPair(z, p, g)) && old(y.Color) == Red
      requires p != y && Pushed(p, g, y)
      requires g.Left == old(g.Left) && g.Right == old(g.Right) && y.Left == old(y.Left) && y.Right == old(y.Right)
      requires p.Left == old(p.Left) && p.Right == old(p.Right) && n.Left == old(n.Left) && n.Right == old(n.Right)
      requires (g.Left == p && g.Right == y) || (g.Left == y && g.Right == p)
      requires Nil.Color == Black && Nil.bh == 0
      ensures RedFree(n, g) && Balanced(n)
    {
      assert old(RedFree(n, z)) && old(Balanced(n)) && old(Local(n)) && old(Local(p)) && old(Local(y)) && old(Local(z));
      assert old(RedFree(g, z)) && old(Balanced(g)) && old(Balanced(p)) && old(Balanced(y));
      assert old(Local(g));
    }

    lemma BelowGrows(z: RBNode<K, V>, p: RBNode<K, V>, g: RBNode<K, V>)
      requires Shape() && {z, p, g} <= Nodes && z.Parent == p && p.Parent == g
      ensures Below(z) < Below(g)
    {
      assert Local(z) && Local(p) && Local(g);
      assert g in Below(g) && g !in Below(z);
    }

    // The uncle is red: blacken it and the parent, and move the red node up.
    method pushRedUp(z: RBNode<K, V>, y: RBNode<K, V>) returns (g: RBNode<K, V>)
      requires z.Parent != null && z.Parent.Parent != null && RedPair(z, z.Parent, z.Parent.Parent)
      requires y.Color == Red && y != z.Parent && (y == z.Parent.Parent.Left || y == z.Parent.Parent.Right)
      modifies Nodes`Color, Nodes`bh
      ensures g == old(z.Parent.Parent) && g in Nodes && g.Color == Red && Coloured(g)
    {
      var p := z.Parent;
      g := p.Parent;
      assert Local(z) && Local(p) && Local(g);
      p.Color := Black;
      y.Color := Black;
      g.Color := Red;
      p.bh, y.bh := p.bh + 1, y.bh + 1;
      forall n {:trigger RedFree(n, g)} {:trigger Balanced(n)} | n in Nodes
        ensures RedFree(n, g) && Balanced(n)
      {
        PushedNode(z, p, g, y, n);
      }
    }

    // Seen from a node that is not part of it, a left rotation only swaps the root of a subtree.
    twostate lemma LeftRotatedElsewhere(new x: RBNode<K, V>, new y: RBNode<K, V>, new n: RBNode<K, V>)
      requires old(Shape()) && {x, y, n} <= old(Nodes)
      requires LeftRotated(x, y) && n != x && n != y
      ensures n.Left == (if old(n.Left) == x then y else old(n.Left))
      ensures n.Right == (if old(n.Right) == x then y else old(n.Right))
    {
      assert old(Local(x)) && old(Local(n));
    }

    // Case 2: z is the inner grandchild.  Rotating its parent makes the parent the outer one.
    twostate lemma LeftStraightenedNode(new z: RBNode<K, V>, new p: RBNode<K, V>, new g: RBNode<K, V>,
                                        new n: RBNode<K, V>)
      requires {z, p, g, n} <= old(Nodes) && old(RedPair(z, p, g)) && LeftRotated(p, z)
      requires forall m {:trigger m.Color} {:trigger m.bh} :: m in Nodes ==>
        m.Color == old(m.Color) && m.bh == old(m.bh)
      requires Nil.Color == Black && Nil.bh == 0
      ensures RedFree(n, p) && Balanced(n)
    {
      assert old(RedFree(n, z)) && old(Balanced(n)) && old(Local(n));
      assert old(RedFree(p, z)) && old(Balanced(p)) && old(RedFree(z, z)) && old(Balanced(z)) && old(Local(z))
        && old(Local(p));
      if n != p && n != z { LeftRotatedElsewhere(p, z, n); }
    }

    method leftStraighten(z: RBNode<K, V>) returns (p: RBNode<K, V>)
      requires z.Parent != null && z.Parent.Parent != null && RedPair(z, z.Parent, z.Parent.Parent)
      requires z == z.Parent.Right
      modifies this`Root, Nodes`Left, Nodes`Right, Nodes`Parent, Nodes`lo, Nodes`hi
      ensures p == old(z.Parent) && p.Parent == z && z.Parent == old(z.Parent.Parent)
      ensures p == z.Left && RedPair(p, z, z.Parent)
      ensures z.Parent.Left == (if old(z.Parent.Parent.Left) == p then z else old(z.Parent.Parent.Left))
      ensures z.Parent.Right == (if old(z.Parent.Parent.Right) == p then z else old(z.Parent.Parent.Right))
    {
      p := z.Parent;
      var g := p.Parent;
      assert Local(z) && Local(p);
      leftRotate(p);
      LeftRotatedElsewhere(p, z, g);
      forall n {:trigger RedFree(n, p)} {:trigger Balanced(n)} | n in Nodes
        ensures RedFree(n, p) && Balanced(n)
      {
        LeftStraightenedNode(z, p, g, n);
      }
    }

    // Case 3: z is the outer grandchild.  Its parent takes the grandparent's place and colour.
    twostate predicate LeftRaised(p: RBNode<K, V>, g: RBNode<K, V>)
      reads this`Root, this`Nodes, Nodes`Left, Nodes`Right, Nodes`Parent, Nodes`Color, Nodes`bh, Nodes`lo, Nodes`pos,
        Nodes`hi
    {
      && LeftRotated(g, p)
      && p.Color == Black && g.Color == Red && p.bh == old(g.bh) && g.bh == old(g.bh) - 1
      && (forall n {:trigger n.Color} {:trigger n.bh} :: n in Nodes && n != p && n != g ==>
            n.Color == old(n.Color) && n.bh == old(n.bh))
    }

    method leftLift(p: RBNode<K, V>, g: RBNode<K, V>)
      requires Shape() && g in Nodes && p in Nodes && g.Right == p && g.bh > 0
      modifies this`Root, Nodes`Left, Nodes`Right, Nodes`Parent, Nodes`lo, Nodes`hi, Nodes`Color, Nodes`bh
      ensures LeftRaised(p, g) && Shape()
    {
      assert Local(g);
      p.Color := Black;
      g.Color := Red;
      p.bh, g.bh := g.bh, g.bh - 1;
      leftRotate(g);
    }

    twostate lemma LeftRaisedNode(new z: RBNode<K, V>, new p: RBNode<K, V>, new g: RBNode<K, V>, new n: RBNode<K, V>)
      requires {z, p, g, n} <= old(Nodes) && old(RedPair(z, p, g)) && LeftRaised(p, g)
      requires old(p.Right) == z && old(g.Left) != null && old(g.Left.Color) == Black
      requires Nil.Color == Black && Nil.bh == 0
      ensures RedFree(n, z) && Balanced(n)
    {
      assert old(RedFree(n, z)) && old(Balanced(n)) && old(Local(n)) && old(Local(z));
      assert old(RedFree(p, z)) && old(Balanced(p)) && old(RedFree(g, z)) && old(Balanced(g)) && old(Local(p))
        && old(Local(g));
      if n != p && n != g { LeftRotatedElsewhere(g, p, n); }
    }

    method leftRaise(z: RBNode<K, V>)
      requires z.Parent != null && z.Parent.Parent != null && RedPair(z, z.Parent, z.Parent.Parent)
      requires z == z.Parent.Right && z.Parent == z.Parent.Parent.Right
      requires z.Parent.Parent.Left != null && z.Parent.Parent.Left.Color == Black
      modifies this`Root, Nodes`Left, Nodes`Right, Nodes`Parent, Nodes`lo, Nodes`hi, Nodes`Color, Nodes`bh
      ensures Shape() && Coloured(z) && z.Color == Red && z.Parent == old(z.Parent) && z.Parent.Color == Black
    {
      var p := z.Parent;
      var g := p.Parent;
      assert Local(z) && Local(p) && Local(g) && RedFree(g, z) && Balanced(g);
      leftLift(p, g);
      forall n {:trigger RedFree(n, z)} {:trigger Balanced(n)} | n in Nodes
        ensures RedFree(n, z) && Balanced(n)
      {
        LeftRaisedNode(z, p, g, n);
      }
    }


    // Seen from a node that is not part of it, a right rotation only swaps the root of a subtree.
    twostate lemma RightRotatedElsewhere(new x: RBNode<K, V>, new y: RBNode<K, V>, new n: RBNode<K, V>)
      requires old(Shape()) && {x, y, n} <= old(Nodes)
      requires RightRotated(x, y) && n != x && n != y
      ensures n.Right == (if old(n.Right) == x then y else old(n.Right))
      ensures n.Left == (if old(n.Left) == x then y else old(n.Left))
    {
      assert old(Local(x)) && old(Local(n));
    }

    // Case 2: z is the inner grandchild.  Rotating its parent makes the parent the outer one.
    twostate lemma RightStraightenedNode(new z: RBNode<K, V>, new p: RBNode<K, V>, new g: RBNode<K, V>,
                                         new n: RBNode<K, V>)
      requires {z, p, g, n} <= old(Nodes) && old(RedPair(z, p, g)) && RightRotated(p, z)
      requires forall m {:trigger m.Color} {:trigger m.bh} :: m in Nodes ==>
        m.Color == old(m.Color) && m.bh == old(m.bh)
      requires Nil.Color == Black && Nil.bh == 0
      ensures RedFree(n, p) && Balanced(n)
    {
      assert old(RedFree(n, z)) && old(Balanced(n)) && old(Local(n));
      assert old(RedFree(p, z)) && old(Balanced(p)) && old(RedFree(z, z)) && old(Balanced(z)) && old(Local(z))
        && old(Local(p));
      if n != p && n != z { RightRotatedElsewhere(p, z, n); }
    }

    method rightStraighten(z: RBNode<K, V>) returns (p: RBNode<K, V>)
      requires z.Parent != null && z.Parent.Parent != null && RedPair(z, z.Parent, z.Parent.Parent)
      requires z == z.Parent.Left
      modifies this`Root, Nodes`Right, Nodes`Left, Nodes`Parent, Nodes`lo, Nodes`hi
      ensures p == old(z.Parent) && p.Parent == z && z.Parent == old(z.Parent.Parent)
      ensures p == z.Right && RedPair(p, z, z.Parent)
      ensures z.Parent.Right == (if old(z.Parent.Parent.Right) == p then z else old(z.Parent.Parent.Right))
      ensures z.Parent.Left == (if old(z.Parent.Parent.Left) == p then z else old(z.Parent.Parent.Left))
    {
      p := z.Parent;
      var g := p.Parent;
      assert Local(z) && Local(p);
      rightRotate(p);
      RightRotatedElsewhere(p, z, g);
      forall n {:trigger RedFree(n, p)} {:trigger Balanced(n)} | n in Nodes
        ensures RedFree(n, p) && Balanced(n)
      {
        RightStraightenedNode(z, p, g, n);
      }
    }

    // Case 3: z is the outer grandchild.  Its parent takes the grandparent's place and colour.
    twostate predicate RightRaised(p: RBNode<K, V>, g: RBNode<K, V>)
      reads this`Root, this`Nodes, Nodes`Right, Nodes`Left, Nodes`Parent, Nodes`Color, Nodes`bh, Nodes`lo, Nodes`pos,
        Nodes`hi
    {
      && RightRotated(g, p)
      && p.Color == Black && g.Color == Red && p.bh == old(g.bh) && g.bh == old(g.bh) - 1
      && (forall n {:trigger n.Color} {:trigger n.bh} :: n in Nodes && n != p && n != g ==>
            n.Color == old(n.Color) && n.bh == old(n.bh))
    }

    method rightLift(p: RBNode<K, V>, g: RBNode<K, V>)
      requires Shape() && g in Nodes && p in Nodes && g.Left == p && g.bh > 0
      modifies this`Root, Nodes`Right, Nodes`Left, Nodes`Parent, Nodes`lo, Nodes`hi, Nodes`Color, Nodes`bh
      ensures RightRaised(p, g) && Shape()
    {
      assert Local(g);
      p.Color := Black;
      g.Color := Red;
      p.bh, g.bh := g.bh, g.bh - 1;
      rightRotate(g);
    }

    twostate lemma RightRaisedNode(new z: RBNode<K, V>, new p: RBNode<K, V>, new g: RBNode<K, V>, new n: RBNode<K, V>)
      requires {z, p, g, n} <= old(Nodes) && old(RedPair(z, p, g)) && RightRaised(p, g)
      requires old(p.Left) == z && old(g.Right) != null && old(g.Right.Color) == Black
      requires Nil.Color == Black && Nil.bh == 0
      ensures RedFree(n, z) && Balanced(n)
    {
      assert old(RedFree(n, z)) && old(Balanced(n)) && old(Local(n)) && old(Local(z));
      assert old(RedFree(p, z)) && old(Balanced(p)) && old(RedFree(g, z)) && old(Balanced(g)) && old(Local(p))
        && old(Local(g));
      if n != p && n != g { RightRotatedElsewhere(g, p, n); }
    }

    method rightRaise(z: RBNode<K, V>)
      requires z.Parent != null && z.Parent.Parent != null && RedPair(z, z.Parent, z.Parent.Parent)
      requires z == z.Parent.Left && z.Parent == z.Parent.Parent.Left
      requires z.Parent.Parent.Right != null && z.Parent.Parent.Right.Color == Black
      modifies this`Root, Nodes`Right, Nodes`Left, Nodes`Parent, Nodes`lo, Nodes`hi, Nodes`Color, Nodes`bh
      ensures Shape() && Coloured(z) && z.Color == Red && z.Parent == old(z.Parent) && z.Parent.Color == Black
    {
      var p := z.Parent;
      var g := p.Parent;
      assert Local(z) && Local(p) && Local(g) && RedFree(g, z) && Balanced(g);
      rightLift(p, g);
      forall n {:trigger RedFree(n, z)} {:trigger Balanced(n)} | n in Nodes
        ensures RedFree(n, z) && Balanced(n)
      {
        RightRaisedNode(z, p, g, n);
      }
    }


    // One turn of the loop when the parent is a left child.
    method insertFixupLeft(z: RBNode<K, V>) returns (z': RBNode<K, V>)
      requires z.Parent != null && z.Parent.Parent != null && RedPair(z, z.Parent, z.Parent.Parent)
      requires z.Parent == z.Parent.Parent.Left
      modifies this`Root, Nodes`Left, Nodes`Right, Nodes`Parent, Nodes`lo, Nodes`hi, Nodes`Color, Nodes`bh
      ensures Shape() && z' in Nodes && z'.Color == Red && Coloured(z') && z'.Parent != null
      ensures z'.Parent.Color == Red ==> old(Below(z)) < Below(z')
    {
      z' := z;
      assert Local(z) && Local(z.Parent) && Local(z.Parent.Parent);
      var y := z.Parent.Parent.Right;
      if y.Color == Red {
        BelowGrows(z, z.Parent, z.Parent.Parent);
        z' := pushRedUp(z, y);
        assert Local(z');
      } else {
        if z == z.Parent.Right {
          z' := leftStraighten(z);
        }
        rightRaise(z');
      }
    }


    // One turn of the loop when the parent is a right child.
    method insertFixupRight(z: RBNode<K, V>) returns (z': RBNode<K, V>)
      requires z.Parent != null && z.Parent.Parent != null && RedPair(z, z.Parent, z.Parent.Parent)
      requires z.Parent == z.Parent.Parent.Right
      modifies this`Root, Nodes`Right, Nodes`Left, Nodes`Parent, Nodes`lo, Nodes`hi, Nodes`Color, Nodes`bh
      ensures Shape() && z' in Nodes && z'.Color == Red && Coloured(z') && z'.Parent != null
      ensures z'.Parent.Color == Red ==> old(Below(z)) < Below(z')
    {
      z' := z;
      assert Local(z) && Local(z.Parent) && Local(z.Parent.Parent);
      var y := z.Parent.Parent.Left;
      if y.Color == Red {
        BelowGrows(z, z.Parent, z.Parent.Parent);
        z' := pushRedUp(z, y);
        assert Local(z');
      } else {
        if z == z.Parent.Left {
          z' := rightStraighten(z);
        }
        leftRaise(z');
      }
    }

    twostate lemma RootBlackened(new z: RBNode<K, V>, new n: RBNode<K, V>)
      requires {z, n} <= old(Nodes) && Nodes == old(Nodes) && Root == old(Root) && old(Shape() && Coloured(z))
      requires old(z.Parent) != null && old(z.Parent.Color) == Black && Nil.Color == Black && Nil.bh == 0
      requires forall m {:trigger m.Color} {:trigger m.bh} :: m in Nodes ==>
        && m.Color == (if m == Root then Black else old(m.Color))
        && m.bh == (if m == Root && m == z && old(m.Color) == Red then old(m.bh) + 1 else old(m.bh))
      requires n.Left == old(n.Left) && n.Right == old(n.Right)
      ensures RedFree(n, null) && Balanced(n)
    {
      assert old(RedFree(n, z)) && old(Balanced(n)) && old(Local(n)) && old(Local(z)) && old(Local(Root));
    }

    method insertFixup(z0: RBNode<K, V>)
      requires Shape() && z0 in Nodes && z0.Color == Red && Coloured(z0)
      modifies this`Root, Nodes`Left, Nodes`Right, Nodes`Parent, Nodes`lo, Nodes`hi, Nodes`Color, Nodes`bh
      ensures Shape() && Coloured(null)
    {
      var z := z0;
      assert Local(z);
      while z.Parent.Color == Red
        invariant Shape() && z in Nodes && z.Color == Red && Coloured(z) && z.Parent != null
        decreases z.Parent.Color == Red, Nodes - Below(z)
      {
        Grandparent(z);
        assert Local(z.Parent);
        if z.Parent == z.Parent.Parent.Left {
          z := insertFixupLeft(z);
        } else {
          z := insertFixupRight(z);
        }
      }
      assert Local(z);
      label L:
      Root.Color := Black;
      if Root == z { Root.bh := Root.bh + 1; }
      forall n {:trigger RedFree(n, null)} {:trigger Balanced(n)} | n in Nodes
        ensures RedFree(n, null) && Balanced(n)
      {
        RootBlackened@L(z, n);
      }
    }

    // ---- Descent --------------------------------------------------------

    // Positions grow along the sequence, and keys never decrease.
    ghost predicate Increasing(nodes: seq<RBNode<K, V>>)
      reads nodes`pos
    {
      forall i, j {:trigger nodes[i], nodes[j]} :: 0 <= i < j < |nodes| ==>
        nodes[i].pos < nodes[j].pos && !less(nodes[j].Key, nodes[i].Key)
    }

    // The sequence lists exactly these nodes, from left to right.
    ghost predicate Lists(nodes: seq<RBNode<K, V>>, these: set<RBNode<K, V>>)
      reads nodes`pos
    {
      && (forall n {:trigger n in nodes} :: n in these ==> n in nodes)
      && (forall n {:trigger n in nodes} :: n in nodes ==> n in these)
      && Increasing(nodes)
    }

    ghost predicate Sorted()
      reads this`Order, this`Nodes, Order`pos
    {
      Lists(Order, Nodes)
    }

    /** The class invariant: a red-black search tree whose in-order listing is Order. */
    ghost predicate Valid()
      reads this, Nodes, Nil, Root, Order
    {
      StrictTotalOrder(less) && Shape() && Coloured(null) && Sorted()
    }

    lemma KeysFollowPositions(n: RBNode<K, V>, m: RBNode<K, V>)
      requires Sorted() && n in Nodes && m in Nodes && n.pos < m.pos
      ensures !less(m.Key, n.Key)
    {
      assert n in Order && m in Order;
      var i :| 0 <= i < |Order| && Order[i] == n;
      var j :| 0 <= j < |Order| && Order[j] == m;
      assert i < j;
    }

    // What the descent has left to search.
    ghost function Remaining(x: RBNode<K, V>): set<RBNode<K, V>>
      reads this`Nodes, Nodes`pos, x`lo, x`hi
    {
      if x == Nil then {} else Below(x)
    }

    lemma RemainingShrinks(x: RBNode<K, V>, c: RBNode<K, V>)
      requires Shape() && x in Nodes && (c == x.Left || c == x.Right)
      ensures c in Nodes + {Nil} && Remaining(c) < Remaining(x)
    {
      assert Local(x);
      assert c != Nil ==> Local(c);
      assert x in Below(x) && x !in Remaining(c);
    }

    method Search(key: K) returns (r: RBNode?<K, V>)
      requires Valid()
      ensures r == null ==> forall n <- Order :: n.Key != key
      ensures r != null ==> r in Order && r in Nodes && r.Key == key
    {
      var x := Root;
      forall m | m in Nodes && m.Key == key ensures x != Nil && Inside(x, m) {}
      while x != Nil && key != x.Key
        invariant x == Nil || x in Nodes
        invariant forall m {:trigger m in Nodes} :: m in Nodes && m.Key == key ==> x != Nil && Inside(x, m)
        decreases Remaining(x)
      {
        assert Local(x);
        var c := if less(key, x.Key) then x.Left else x.Right;
        RemainingShrinks(x, c);
        forall m | m in Nodes && m.Key == key ensures c != Nil && Inside(c, m) {
          assert Inside(x, m) && Covered(x, m);
          if m.pos < x.pos { KeysFollowPositions(m, x); }
          if x.pos < m.pos { KeysFollowPositions(x, m); }
          assert Distinct(m, x);
        }
        if less(key, x.Key) {
          x := x.Left;
        } else {
          x := x.Right;
        }
      }
      r := if x == Nil then null else x;
    }

    // Where a new node with this key goes: below y, after every key that is not larger.
    ghost predicate Gap(y: RBNode<K, V>, key: K)
      reads this`Nodes, y`Left, y`Right, y`pos, Nodes`pos
    {
      && (if less(key, y.Key) then y.Left == Nil else y.Right == Nil)
      && (forall m {:trigger m in Nodes} :: m in Nodes ==>
            (less(key, m.Key) <==> if less(key, y.Key) then y.pos <= m.pos else y.pos < m.pos))
    }

    // The descent has narrowed the place of the key to x, strictly between lo and hi.
    ghost predicate Bracketed(key: K, x: RBNode<K, V>, lo: real, hi: real, m: RBNode<K, V>)
      reads this`Nodes, x`lo, x`hi, m`pos
    {
      && (m.pos <= lo ==> !less(key, m.Key))
      && (hi <= m.pos ==> less(key, m.Key))
      && (lo < m.pos < hi ==> x != Nil && Inside(x, m))
    }

    lemma BracketNarrows(key: K, x: RBNode<K, V>, c: RBNode<K, V>, lo: real, hi: real, m: RBNode<K, V>)
      requires Valid() && x in Nodes && m in Nodes && lo <= x.lo && x.hi <= hi
      requires c == (if less(key, x.Key) then x.Left else x.Right)
      requires Bracketed(key, x, lo, hi, m)
      ensures if less(key, x.Key) then Bracketed(key, c, lo, x.pos, m) else Bracketed(key, c, x.pos, hi, m)
    {
      assert Local(x) && Covered(x, m) && Distinct(x, m);
      if m.pos < x.pos { KeysFollowPositions(m, x); }
      if x.pos < m.pos { KeysFollowPositions(x, m); }
    }

    method findGap(key: K) returns (y: RBNode<K, V>)
      requires Valid()
      ensures if Root == Nil then y == Nil else y in Nodes && Gap(y, key)
    {
      y := Nil;
      var x := Root;
      ghost var lo, hi := x.lo, x.hi;
      assert x != Nil ==> Local(x);
      forall m {:trigger Bracketed(key, x, lo, hi, m)} | m in Nodes ensures Bracketed(key, x, lo, hi, m) {
        assert Inside(x, m);
      }
      while x != Nil
        invariant x == Nil || (x in Nodes && lo <= x.lo && x.hi <= hi)
        invariant if y == Nil then x == Root else y in Nodes
        invariant y != Nil && less(key, y.Key) ==> x == y.Left && hi == y.pos
        invariant y != Nil && !less(key, y.Key) ==> x == y.Right && lo == y.pos
        invariant forall m {:trigger Bracketed(key, x, lo, hi, m)} :: m in Nodes ==> Bracketed(key, x, lo, hi, m)
        decreases Remaining(x)
      {
        assert Local(x);
        ghost var c, lo', hi' := x.Right, x.pos, hi;
        if less(key, x.Key) { c, lo', hi' := x.Left, lo, x.pos; }
        RemainingShrinks(x, c);
        forall m {:trigger Bracketed(key, c, lo', hi', m)} | m in Nodes ensures Bracketed(key, c, lo', hi', m) {
          assert Bracketed(key, x, lo, hi, m);
          BracketNarrows(key, x, c, lo, hi, m);
        }
        y := x;
        if less(key, x.Key) {
          x := x.Left;
        } else {
          x := x.Right;
        }
        lo, hi := lo', hi';
      }
      forall m {:trigger m in Nodes} | m in Nodes && y != Nil
        ensures less(key, m.Key) <==> if less(key, y.Key) then y.pos <= m.pos else y.pos < m.pos
      {
        assert Bracketed(key, x, lo, hi, m);
      }
    }

    // Everything in n's subtree lies on n's side of the line where it hangs.
    lemma Nested(n: RBNode<K, V>, m: RBNode<K, V>)
      requires Shape() && n in Nodes && m in Nodes && n != m && Inside(n, m)
      ensures if m.pos < n.pos then n.lo <= m.lo && m.hi <= n.pos else n.pos <= m.lo && m.hi <= n.hi
      decreases Below(n)
    {
      assert Local(n) && Covered(n, m);
      assert Distinct(m, n);
      var c := if m.pos < n.pos then n.Left else n.Right;
      RemainingShrinks(n, c);
      if c != m { Nested(c, m); assert Local(c); }
    }

    // Two nodes neither of which is below the other have disjoint intervals.
    lemma Apart(a: RBNode<K, V>, n: RBNode<K, V>, m: RBNode<K, V>)
      requires Shape() && a in Nodes && n in Nodes && m in Nodes && n != m
      requires Inside(a, n) && Inside(a, m) && !Inside(n, m) && !Inside(m, n)
      ensures n.hi <= m.lo || m.hi <= n.lo
      decreases Below(a)
    {
      assert Covered(a, n) && Covered(a, m);
      if n != a { Nested(a, n); }
      if m != a { Nested(a, m); }
      assert Distinct(n, a) && Distinct(m, a) && Local(a);
      if (n.pos < a.pos) == (m.pos < a.pos) {
        var c := if n.pos < a.pos then a.Left else a.Right;
        RemainingShrinks(a, c);
        Apart(c, n, m);
      }
    }

    ghost predicate Spans(n: RBNode<K, V>, g: real)
      reads n`lo, n`hi
    {
      n.lo < g < n.hi
    }

    ghost function Side(n: RBNode<K, V>, g: real): RBNode?<K, V>
      reads n`pos, n`Left, n`Right
    {
      if g < n.pos then n.Left else n.Right
    }

    // The node n covers the place g only if it covers y, and then the child on that side does.
    ghost predicate GapOK(n: RBNode<K, V>, y: RBNode<K, V>, g: real)
      reads this`Nodes, n`Left, n`Right, n`lo, n`pos, n`hi, y`pos, Nodes`lo, Nodes`hi
    {
      && g != n.pos && (n.pos < g <==> n.pos < y.pos)
      && (Spans(n, g) ==> Inside(n, y) && Side(n, g) != null && Side(n, g) in Nodes && Spans(Side(n, g), g))
      && (Inside(n, y) ==> Spans(n, g))
    }

    // A place g in the empty interval to the left of y is covered by exactly the nodes that cover y.
    lemma LeftGapCovered(n: RBNode<K, V>, y: RBNode<K, V>, g: real)
      requires Shape() && n in Nodes && y in Nodes && n != y && y.Left == Nil
      requires y.lo < g < y.pos || y.pos < g < y.lo
      ensures GapOK(n, y, g)
    {
      assert Local(n) && Local(y) && Covered(y, n) && Covered(n, y);
      assert Inside(Root, n);
      assert Inside(Root, y);
      assert Distinct(n, y);
      if Inside(n, y) {
        Nested(n, y);
        var c := Side(n, y.pos);
        assert Local(c);
        if c != y { Nested(c, y); }
      } else if Inside(y, n) {
        Nested(y, n);
      } else {
        Apart(Root, n, y);
      }
    }

    // z, a red leaf of no black height, hangs from y on its left.
    twostate predicate LeftAttached(y: RBNode<K, V>, new z: RBNode<K, V>)
      reads this`Root, this`Nodes, Nodes`Left, Nodes`Right, Nodes`Parent, Nodes`lo, Nodes`pos, Nodes`hi, Nodes`Color,
        Nodes`bh
    {
      && Nodes == old(Nodes) + {z} && z !in old(Nodes) && y in old(Nodes) && z != Nil && Root == old(Root)
      && y.Left == z && z.Left == Nil && z.Right == Nil && z.Parent == y
      && y.Right == old(y.Right) && y.Parent == old(y.Parent)
      && z.lo == y.lo && z.hi == y.pos && z.pos < y.pos && z.lo < z.pos
      && z.Color == Red && z.bh == 0
      && (forall n {:trigger n in old(Nodes)} :: n in old(Nodes) ==>
            && n.lo == old(n.lo) && n.pos == old(n.pos) && n.hi == old(n.hi)
            && n.Parent == old(n.Parent) && n.Color == old(n.Color) && n.bh == old(n.bh)
            && (n != y ==> n.Left == old(n.Left) && n.Right == old(n.Right)))
    }

    twostate lemma LeftAttachedNode(new y: RBNode<K, V>, new z: RBNode<K, V>, new n: RBNode<K, V>)
      requires {y, n} <= old(Nodes) && old(Shape() && Coloured(null) && y.Left == Nil) && LeftAttached(y, z)
      requires Nil.Color == Black && Nil.bh == 0
      ensures Local(n) && Local(z) && RedFree(n, z) && Balanced(n) && RedFree(z, z) && Balanced(z)
    {
      assert old(Local(n)) && old(Local(y)) && old(RedFree(n, null)) && old(Balanced(n));
    }

    twostate lemma LeftAttachedCovered(new y: RBNode<K, V>, new z: RBNode<K, V>, new n: RBNode<K, V>,
                                       new m: RBNode<K, V>, g: real)
      requires {y} <= old(Nodes) && {n, m} <= Nodes && old(Shape() && y.Left == Nil) && LeftAttached(y, z)
      requires z.pos == g && (n in old(Nodes) && n != y ==> old(GapOK(n, y, g)))
      ensures Covered(n, m) && Distinct(n, m)
    {
      assert old(Local(y));
      if n != z && m != z {
        assert old(Covered(n, m)) && old(Local(n));
        assert old(Distinct(n, m));
      } else if n != z && n != y {
        assert old(GapOK(n, y, g));
        assert old(Local(n));
      } else if m != z {
        assert old(Covered(y, m));
        assert old(Distinct(y, m));
      }
    }

    twostate lemma LeftAttachedTree(new y: RBNode<K, V>, new z: RBNode<K, V>, g: real)
      requires {y} <= old(Nodes) && old(Shape() && Coloured(null) && y.Left == Nil) && LeftAttached(y, z) && z.pos == g
      requires forall n {:trigger n in old(Nodes)} :: n in old(Nodes) && n != y ==> old(GapOK(n, y, g))
      requires Nil.Color == Black && Nil.bh == 0 && Nil.Left == null && Nil.Right == null
      ensures Shape() && Coloured(z)
    {
      forall n {:trigger Local(n)} {:trigger RedFree(n, z)} {:trigger Balanced(n)} | n in Nodes
        ensures Local(n) && RedFree(n, z) && Balanced(n)
      {
        LeftAttachedNode(y, z, if n == z then y else n);
      }
      forall n, m {:trigger Covered(n, m)} | n in Nodes && m in Nodes ensures Covered(n, m) {
        LeftAttachedCovered(y, z, n, m, g);
      }
      forall n, m {:trigger Distinct(n, m)} | n in Nodes && m in Nodes ensures Distinct(n, m) {
        LeftAttachedCovered(y, z, n, m, g);
      }
      forall m {:trigger Inside(Root, m)} | m in Nodes ensures Inside(Root, m) {
        assert m != z ==> old(Inside(Root, m));
        assert old(Inside(Root, y)) && old(Local(y));
      }
    }

    method leftAttach(y: RBNode<K, V>, z: RBNode<K, V>)
      requires Shape() && Coloured(null) && y in Nodes && y.Left == Nil
      requires z !in Nodes && z != Nil && z.Left == Nil && z.Right == Nil && z.Parent == y && z.Color == Red
      modifies this`Nodes, y`Left, z`lo, z`pos, z`hi, z`bh
      ensures Shape() && Coloured(z) && Nodes == old(Nodes) + {z}
      ensures z.pos < y.pos
      ensures forall n {:trigger n in old(Nodes)} :: n in old(Nodes) && n != y ==>
        n.pos != z.pos && (n.pos < z.pos <==> n.pos < y.pos)
    {
      assert Local(y);
      ghost var g := (y.lo + y.pos) / 2.0;
      forall n | n in Nodes && n != y ensures GapOK(n, y, g) { LeftGapCovered(n, y, g); }
      z.lo, z.pos, z.hi, z.bh := y.lo, g, y.pos, 0;
      Nodes := Nodes + {z};
      y.Left := z;
      assert LeftAttached(y, z);
      LeftAttachedTree(y, z, g);
    }

    // A place g in the empty interval to the right of y is covered by exactly the nodes that cover y.
    lemma RightGapCovered(n: RBNode<K, V>, y: RBNode<K, V>, g: real)
      requires Shape() && n in Nodes && y in Nodes && n != y && y.Right == Nil
      requires y.hi < g < y.pos || y.pos < g < y.hi
      ensures GapOK(n, y, g)
    {
      assert Local(n) && Local(y) && Covered(y, n) && Covered(n, y);
      assert Inside(Root, n);
      assert Inside(Root, y);
      assert Distinct(n, y);
      if Inside(n, y) {
        Nested(n, y);
        var c := Side(n, y.pos);
        assert Local(c);
        if c != y { Nested(c, y); }
      } else if Inside(y, n) {
        Nested(y, n);
      } else {
        Apart(Root, n, y);
      }
    }

    // z, a red leaf of no black height, hangs from y on its right.
    twostate predicate RightAttached(y: RBNode<K, V>, new z: RBNode<K, V>)
      reads this`Root, this`Nodes, Nodes`Right, Nodes`Left, Nodes`Parent, Nodes`lo, Nodes`pos, Nodes`hi, Nodes`Color,
        Nodes`bh
    {
      && Nodes == old(Nodes) + {z} && z !in old(Nodes) && y in old(Nodes) && z != Nil && Root == old(Root)
      && y.Right == z && z.Right == Nil && z.Left == Nil && z.Parent == y
      && y.Left == old(y.Left) && y.Parent == old(y.Parent)
      && z.hi == y.hi && z.lo == y.pos && z.pos > y.pos && z.hi > z.pos
      && z.Color == Red && z.bh == 0
      && (forall n {:trigger n in old(Nodes)} :: n in old(Nodes) ==>
            && n.hi == old(n.hi) && n.pos == old(n.pos) && n.lo == old(n.lo)
            && n.Parent == old(n.Parent) && n.Color == old(n.Color) && n.bh == old(n.bh)
            && (n != y ==> n.Right == old(n.Right) && n.Left == old(n.Left)))
    }

    twostate lemma RightAttachedNode(new y: RBNode<K, V>, new z: RBNode<K, V>, new n: RBNode<K, V>)
      requires {y, n} <= old(Nodes) && old(Shape() && Coloured(null) && y.Right == Nil) && RightAttached(y, z)
      requires Nil.Color == Black && Nil.bh == 0
      ensures Local(n) && Local(z) && RedFree(n, z) && Balanced(n) && RedFree(z, z) && Balanced(z)
    {
      assert old(Local(n)) && old(Local(y)) && old(RedFree(n, null)) && old(Balanced(n));
    }

    twostate lemma RightAttachedCovered(new y: RBNode<K, V>, new z: RBNode<K, V>, new n: RBNode<K, V>,
                                        new m: RBNode<K, V>, g: real)
      requires {y} <= old(Nodes) && {n, m} <= Nodes && old(Shape() && y.Right == Nil) && RightAttached(y, z)
      requires z.pos == g && (n in old(Nodes) && n != y ==> old(GapOK(n, y, g)))
      ensures Covered(n, m) && Distinct(n, m)
    {
      assert old(Local(y));
      if n != z && m != z {
        assert old(Covered(n, m)) && old(Local(n));
        assert old(Distinct(n, m));
      } else if n != z && n != y {
        assert old(GapOK(n, y, g));
        assert old(Local(n));
      } else if m != z {
        assert old(Covered(y, m));
        assert old(Distinct(y, m));
      }
    }

    twostate lemma RightAttachedTree(new y: RBNode<K, V>, new z: RBNode<K, V>, g: real)
      requires {y} <= old(Nodes) && old(Shape() && Coloured(null) && y.Right == Nil) && RightAttached(y, z)
        && z.pos == g
      requires forall n {:trigger n in old(Nodes)} :: n in old(Nodes) && n != y ==> old(GapOK(n, y, g))
      requires Nil.Color == Black && Nil.bh == 0 && Nil.Right == null && Nil.Left == null
      ensures Shape() && Coloured(z)
    {
      forall n {:trigger Local(n)} {:trigger RedFree(n, z)} {:trigger Balanced(n)} | n in Nodes
        ensures Local(n) && RedFree(n, z) && Balanced(n)
      {
        RightAttachedNode(y, z, if n == z then y else n);
      }
      forall n, m {:trigger Covered(n, m)} | n in Nodes && m in Nodes ensures Covered(n, m) {
        RightAttachedCovered(y, z, n, m, g);
      }
      forall n, m {:trigger Distinct(n, m)} | n in Nodes && m in Nodes ensures Distinct(n, m) {
        RightAttachedCovered(y, z, n, m, g);
      }
      forall m {:trigger Inside(Root, m)} | m in Nodes ensures Inside(Root, m) {
        assert m != z ==> old(Inside(Root, m));
        assert old(Inside(Root, y)) && old(Local(y));
      }
    }

    method rightAttach(y: RBNode<K, V>, z: RBNode<K, V>)
      requires Shape() && Coloured(null) && y in Nodes && y.Right == Nil
      requires z !in Nodes && z != Nil && z.Right == Nil && z.Left == Nil && z.Parent == y && z.Color == Red
      modifies this`Nodes, y`Right, z`lo, z`pos, z`hi, z`bh
      ensures Shape() && Coloured(z) && Nodes == old(Nodes) + {z}
      ensures z.pos > y.pos
      ensures forall n {:trigger n in old(Nodes)} :: n in old(Nodes) && n != y ==>
        n.pos != z.pos && (n.pos < z.pos <==> n.pos < y.pos)
    {
      assert Local(y);
      ghost var g := (y.hi + y.pos) / 2.0;
      forall n | n in Nodes && n != y ensures GapOK(n, y, g) { RightGapCovered(n, y, g); }
      z.hi, z.pos, z.lo, z.bh := y.hi, g, y.pos, 0;
      Nodes := Nodes + {z};
      y.Right := z;
      assert RightAttached(y, z);
      RightAttachedTree(y, z, g);
    }

    // The number of listed nodes that stand before g.
    lemma Slot(nodes: seq<RBNode<K, V>>, g: real) returns (i: nat)
      requires Increasing(nodes)
      ensures i <= |nodes|
      ensures forall j {:trigger nodes[j]} :: 0 <= j < |nodes| ==> (j < i <==> nodes[j].pos < g)
    {
      i := 0;
      while i < |nodes| && nodes[i].pos < g
        invariant i <= |nodes| && forall j {:trigger nodes[j]} :: 0 <= j < i ==> nodes[j].pos < g
      {
        i := i + 1;
      }
    }

    // A fresh node with this key and value is listed at index i, after every key that is not
    // larger and before every key that is larger; the other nodes keep their order.
    twostate predicate InsertedAt(i: nat, key: K, value: V)
      reads this`Order
    {
      && i <= |old(Order)| && |Order| == |old(Order)| + 1
      && Order == old(Order)[..i] + [Order[i]] + old(Order)[i..]
      && Order[i] !in old(Order) && Order[i].Key == key && Order[i].Value == value
      && (forall j {:trigger old(Order)[j]} :: 0 <= j < |old(Order)| ==> (i <= j <==> less(key, old(Order)[j].Key)))
    }

    lemma ListInserted(nodes: seq<RBNode<K, V>>, these: set<RBNode<K, V>>, z: RBNode<K, V>) returns (i: nat)
      requires StrictTotalOrder(less) && Lists(nodes, these)
      requires forall n {:trigger n in these} :: n in these ==>
        n.pos != z.pos && (z.pos < n.pos <==> less(z.Key, n.Key))
      ensures i <= |nodes| && Lists(nodes[..i] + [z] + nodes[i..], these + {z})
      ensures forall j {:trigger nodes[j]} :: 0 <= j < |nodes| ==> (i <= j <==> less(z.Key, nodes[j].Key))
    {
      i := Slot(nodes, z.pos);
      forall j {:trigger nodes[j]} | 0 <= j < |nodes|
        ensures nodes[j].pos != z.pos && (z.pos < nodes[j].pos <==> less(z.Key, nodes[j].Key))
      {
        assert nodes[j] in nodes;
      }
      StillListed(nodes, z, i);
      IncreasingInserted(nodes, z, i);
    }

    lemma IncreasingInserted(nodes: seq<RBNode<K, V>>, z: RBNode<K, V>, i: nat)
      requires StrictTotalOrder(less) && Increasing(nodes) && i <= |nodes|
      requires forall j {:trigger nodes[j]} :: 0 <= j < |nodes| ==>
        && (j < i ==> nodes[j].pos < z.pos && !less(z.Key, nodes[j].Key))
        && (i <= j ==> z.pos < nodes[j].pos && less(z.Key, nodes[j].Key))
      ensures Increasing(nodes[..i] + [z] + nodes[i..])
    {
    }

    lemma StillListed(nodes: seq<RBNode<K, V>>, z: RBNode<K, V>, i: nat)
      requires i <= |nodes|
      ensures forall n {:trigger n in nodes[..i] + [z] + nodes[i..]} ::
        n in nodes[..i] + [z] + nodes[i..] <==> n in nodes || n == z
    {
      assert nodes == nodes[..i] + nodes[i..];
    }

    ghost method enlist(z: RBNode<K, V>, before: set<RBNode<K, V>>) returns (i: nat)
      requires StrictTotalOrder(less) && Lists(Order, before) && z !in before && Nodes == before + {z}
      requires forall n {:trigger n in before} :: n in before ==>
        n.pos != z.pos && (z.pos < n.pos <==> less(z.Key, n.Key))
      modifies this`Order
      ensures Sorted() && InsertedAt(i, z.Key, z.Value)
    {
      i := ListInserted(Order, before, z);
      Order := Order[..i] + [z] + Order[i..];
      assert z !in old(Order);
    }

    // Hang z where its key belongs.
    method attach(z: RBNode<K, V>, y: RBNode<K, V>)
      requires Valid() && z !in Nodes && z != Nil
      requires if Root == Nil then y == Nil else y in Nodes && Gap(y, z.Key)
      requires z.Left == Nil && z.Right == Nil && z.Parent == y && z.Color == Red
      modifies this`Root, this`Nodes, Nodes`Left, Nodes`Right, z`lo, z`pos, z`hi, z`bh
      ensures Shape() && Coloured(z) && Nodes == old(Nodes) + {z}
      ensures forall n {:trigger n in old(Nodes)} :: n in old(Nodes) ==>
        n.pos != z.pos && (z.pos < n.pos <==> less(z.Key, n.Key))
    {
      if y == Nil {
        Root := z;
        Nodes, z.lo, z.pos, z.hi, z.bh := {z}, -1.0, 0.0, 1.0, 0;
        assert Local(z) && Covered(z, z) && Distinct(z, z) && RedFree(z, z) && Balanced(z);
      } else if less(z.Key, y.Key) {
        leftAttach(y, z);
      } else {
        rightAttach(y, z);
      }
    }

    // Put z where a plain search tree would, and list it.
    method place(z: RBNode<K, V>) returns (ghost i: nat)
      requires Valid() && z !in Nodes && z != Nil
      requires z.Left == Nil && z.Right == Nil && z.Color == Red
      modifies this`Root, this`Nodes, this`Order, Nodes`Left, Nodes`Right, z`Parent, z`lo, z`pos, z`hi, z`bh
      ensures Shape() && Coloured(z) && Sorted() && z in Nodes && Nodes == old(Nodes) + {z}
      ensures InsertedAt(i, z.Key, z.Value)
    {
      var y := findGap(z.Key);
      z.Parent := y;
      assert z !in Order;
      attach(z, y);
      assert Lists(Order, old(Nodes));
      i := enlist(z, old(Nodes));
    }

    method Insert(key: K, value: V)
      requires Valid()
      modifies this, Nodes
      ensures Valid() && fresh(Nodes - old(Nodes))
      ensures exists i: nat :: InsertedAt(i, key, value)
    {
      var z := new RBNode(key, value, Nil);
      ghost var i := place(z);
      insertFixup(z);
      assert InsertedAt(i, key, value);
    }

    // ---- Deletion: restoring the colours --------------------------------

    // Balanced, when the child of q on the given side counts one more black than it has.
    ghost predicate BalancedBut(n: RBNode<K, V>, q: RBNode?<K, V>, side: Hand)
      reads this`Nodes, n`Left, n`Right, n`Color, n`bh, Nodes`bh, Nil`bh
    {
      && Linked(n)
      && var l := n.Left.bh + (if n == q && side == OnLeft then 1 else 0);
      && var r := n.Right.bh + (if n == q && side == OnRight then 1 else 0);
      && l == r && n.bh == l + (if n.Color == Black then 1 else 0)
    }

    // Every path through x, the child of q on the given side, lacks one black node; x may be the
    // sentinel.  x may also be red below a red parent, or above a red child.  When x is the root
    // there is no q and nothing is lacking.
    ghost predicate Lacking(x: RBNode<K, V>, q: RBNode?<K, V>, side: Hand)
      reads this`Root, this`Nodes, Nodes`Left, Nodes`Right, Nodes`Parent, Nodes`lo, Nodes`pos, Nodes`hi, Nodes`Color,
        Nodes`bh
      reads Nil`Left, Nil`Right, Nil`Color, Nil`bh, Root`Color, x`Parent
    {
      && Shape() && x in Nodes + {Nil}
      && Nil.Color == Black && Nil.bh == 0
      && (x == Root <==> q == null)
      && (q != null ==> q in Nodes && x.Parent == q && x == (if side == OnLeft then q.Left else q.Right))
      && (Root == x || Root.Color == Black)
      && (forall n {:trigger RedFree(n, x)} :: n in Nodes && n != x ==> RedFree(n, x))
      && (forall n {:trigger BalancedBut(n, q, side)} :: n in Nodes ==> BalancedBut(n, q, side))
    }

    lemma BelowChild(c: RBNode<K, V>, p: RBNode<K, V>)
      requires Shape() && c in Nodes && p in Nodes && c.Parent == p && (c == p.Left || c == p.Right)
      ensures Below(c) < Below(p)
    {
      assert Local(c) && Local(p);
      assert p in Below(p) && p !in Below(c);
    }

    // The colouring of case 4: w takes q's colour, and q and u become black.
    method paintTop(q: RBNode<K, V>, w: RBNode<K, V>, u: RBNode<K, V>)
      requires q != w && q != u && w != u
      modifies q`Color, w`Color, u`Color, q`bh, w`bh, u`bh
      ensures w.Color == old(q.Color) && q.Color == Black && u.Color == Black
      ensures w.bh == old(q.bh) && q.bh == old(w.bh) && u.bh == old(u.bh) + 1
    {
      w.Color := q.Color;
      q.Color := Black;
      u.Color := Black;
      w.bh, q.bh, u.bh := q.bh, w.bh, u.bh + 1;
    }

    // The colouring of case 2.
    method paintSibling(q: RBNode<K, V>, w: RBNode<K, V>)
      requires q != w && w.bh > 0 && q.bh > 0
      modifies w`Color, w`bh, q`bh
      ensures w.Color == Red && w.bh == old(w.bh) - 1 && q.bh == old(q.bh) - 1
    {
      w.Color := Red;
      w.bh, q.bh := w.bh - 1, q.bh - 1;
    }

    // The sibling of a lacking node is a real node, so the side can be read off the links.
    lemma LackingLeft(x: RBNode<K, V>, q: RBNode<K, V>, side: Hand)
      requires Lacking(x, q, side) && side == OnLeft
      ensures x == q.Left && x != q.Right && q.Right in Nodes
    {
      assert BalancedBut(q, q, side) && Local(q);
      assert Local(q.Right);
      assert x != Nil ==> Local(x);
    }

    // Case 1: a red sibling w is rotated above q, and a black node becomes the sibling.
    twostate lemma LeftCase1Node(new x: RBNode<K, V>, new q: RBNode<K, V>, new w: RBNode<K, V>, new n: RBNode<K, V>)
      requires {q, w, n} <= old(Nodes) && old(allocated(x)) && old(Lacking(x, q, OnLeft)) && LeftRaised(w, q)
      requires old(w.Color) == Red && Nil.Color == Black && Nil.bh == 0
      ensures (n != x ==> RedFree(n, x)) && BalancedBut(n, q, OnLeft)
    {
      assert old(Local(n)) && old(Local(q)) && old(Local(w));
      assert w != x && q != x;
      assert old(n != x ==> RedFree(n, x)) && old(BalancedBut(n, q, OnLeft));
      assert old(RedFree(w, x)) && old(BalancedBut(w, q, OnLeft)) && old(RedFree(q, x))
        && old(BalancedBut(q, q, OnLeft));
      if n != q && n != w { LeftRotatedElsewhere(q, w, n); }
    }

    method leftCase1(x: RBNode<K, V>, q: RBNode<K, V>)
      requires Lacking(x, q, OnLeft) && x.Color == Black && q.Right != null && q.Right.Color == Red
      modifies this`Root, Nodes`Left, Nodes`Right, Nodes`Parent, Nodes`lo, Nodes`hi, Nodes`Color, Nodes`bh
      ensures Lacking(x, q, OnLeft) && x.Color == Black && q.Color == Red
      ensures q.Right != null && q.Right.Color == Black
    {
      LackingLeft(x, q, OnLeft);
      var w := q.Right;
      assert Local(q) && Local(w) && RedFree(q, x) && RedFree(w, x) && BalancedBut(q, q, OnLeft);
      leftLift(w, q);
      forall n {:trigger RedFree(n, x)} {:trigger BalancedBut(n, q, OnLeft)} | n in Nodes
        ensures (n != x ==> RedFree(n, x)) && BalancedBut(n, q, OnLeft)
      {
        LeftCase1Node(x, q, w, n);
      }
    }

    // Case 2: both nephews are black.  Reddening the sibling w moves the lack up to q.
    twostate lemma LeftCase2Node(new x: RBNode<K, V>, new q: RBNode<K, V>, new w: RBNode<K, V>, new n: RBNode<K, V>,
                                 new p: RBNode?<K, V>, side: Hand)
      requires {q, w, n} <= old(Nodes) && old(allocated(x)) && old(Lacking(x, q, OnLeft)) && Nodes == old(Nodes)
      requires old(q.Right) == w && old(w.Color) == Black && old(x.Color) == Black
      requires old(w.Left) != null && old(w.Left.Color) == Black && old(w.Right) != null && old(w.Right.Color) == Black
      requires w.Color == Red && w.bh == old(w.bh) - 1 && q.bh == old(q.bh) - 1
      requires forall m {:trigger m.Color} {:trigger m.bh} :: m in Nodes ==>
        (m != w ==> m.Color == old(m.Color)) && (m != w && m != q ==> m.bh == old(m.bh))
      requires n.Left == old(n.Left) && n.Right == old(n.Right)
      requires Nil.Color == Black && Nil.bh == 0 && Root == old(Root)
      requires if q == Root then p == null
               else
                 && p != null && p in old(Nodes) && p == old(q.Parent)
                 && q == (if side == OnLeft then p.Left else p.Right)
      ensures (n != q ==> RedFree(n, q)) && BalancedBut(n, p, side)
    {
      assert old(n != x ==> RedFree(n, x)) && old(BalancedBut(n, q, OnLeft)) && old(Local(n))
        && old(BalancedBut(q, q, OnLeft));
      assert old(RedFree(w, x)) && old(BalancedBut(w, q, OnLeft)) && old(Local(q)) && old(Local(w));
      if q != Root { assert old(Local(p)); }
    }

    method leftCase2(x: RBNode<K, V>, q: RBNode<K, V>) returns (ghost p: RBNode?<K, V>, ghost side: Hand)
      requires Lacking(x, q, OnLeft) && x.Color == Black && q.Right != null && q.Right.Color == Black
      requires q.Right.Left != null && q.Right.Left.Color == Black && q.Right.Right != null
        && q.Right.Right.Color == Black
      modifies Nodes`Color, Nodes`bh
      ensures Lacking(q, p, side) && q.Color == old(q.Color)
    {
      LackingLeft(x, q, OnLeft);
      var w := q.Right;
      assert Local(q) && Local(w) && BalancedBut(q, q, OnLeft) && BalancedBut(w, q, OnLeft);
      p := if q == Root then null else q.Parent;
      side := if p != null && p.Left == q then OnLeft else OnRight;
      assert p != null && side == OnRight ==> p.Right == q;
      paintSibling(q, w);
      forall n {:trigger RedFree(n, q)} {:trigger BalancedBut(n, p, side)} | n in Nodes
        ensures (n != q ==> RedFree(n, q)) && BalancedBut(n, p, side)
      {
        LeftCase2Node(x, q, w, n, p, side);
      }
    }

    // Case 3: the far nephew is black.  Rotating the sibling w puts a red node there.
    twostate lemma LeftCase3Node(new x: RBNode<K, V>, new q: RBNode<K, V>, new w: RBNode<K, V>, new v: RBNode<K, V>,
                                 new n: RBNode<K, V>)
      requires {q, w, v, n} <= old(Nodes) && old(allocated(x)) && old(Lacking(x, q, OnLeft)) && RightRaised(v, w)
      requires old(q.Right) == w && old(w.Color) == Black && old(v.Color) == Red && old(x.Color) == Black
      requires old(w.Right) != null && old(w.Right.Color) == Black
      requires Nil.Color == Black && Nil.bh == 0
      ensures (n != x ==> RedFree(n, x)) && BalancedBut(n, q, OnLeft)
    {
      assert old(Local(n)) && old(Local(q)) && old(Local(w)) && old(Local(v));
      assert w != x && v != x;
      assert old(n != x ==> RedFree(n, x)) && old(BalancedBut(n, q, OnLeft));
      assert old(RedFree(w, x)) && old(BalancedBut(w, q, OnLeft)) && old(RedFree(v, x))
        && old(BalancedBut(v, q, OnLeft)) && old(BalancedBut(q, q, OnLeft));
      if n != v && n != w { RightRotatedElsewhere(w, v, n); }
    }

    method leftCase3(x: RBNode<K, V>, q: RBNode<K, V>)
      requires Lacking(x, q, OnLeft) && x.Color == Black && q.Right != null && q.Right.Color == Black
      requires q.Right.Left != null && q.Right.Left.Color == Red && q.Right.Right != null
        && q.Right.Right.Color == Black
      modifies this`Root, Nodes`Left, Nodes`Right, Nodes`Parent, Nodes`lo, Nodes`hi, Nodes`Color, Nodes`bh
      ensures Lacking(x, q, OnLeft) && x.Color == Black
      ensures q.Right != null && q.Right.Color == Black && q.Right.Right != null && q.Right.Right.Color == Red
    {
      LackingLeft(x, q, OnLeft);
      var w := q.Right;
      var v := w.Left;
      assert Local(q) && Local(w) && Local(v) && BalancedBut(w, q, OnLeft);
      rightLift(v, w);
      RightRotatedElsewhere(w, v, q);
      forall n {:trigger RedFree(n, x)} {:trigger BalancedBut(n, q, OnLeft)} | n in Nodes
        ensures (n != x ==> RedFree(n, x)) && BalancedBut(n, q, OnLeft)
      {
        LeftCase3Node(x, q, w, v, n);
      }
    }

    // Case 4: the far nephew u is red.  The sibling w takes q's place and colour, and nothing lacks any more.
    twostate predicate LeftTopped(q: RBNode<K, V>, w: RBNode<K, V>, u: RBNode<K, V>)
      reads this`Root, this`Nodes, Nodes`Left, Nodes`Right, Nodes`Parent, Nodes`Color, Nodes`bh, Nodes`lo, Nodes`pos,
        Nodes`hi
    {
      && LeftRotated(q, w) && old(w.Right) == u && u in Nodes
      && w.Color == old(q.Color) && q.Color == Black && u.Color == Black
      && w.bh == old(q.bh) && q.bh == old(w.bh) && u.bh == old(u.bh) + 1
      && (forall m {:trigger m.Color} {:trigger m.bh} :: m in Nodes && m != w && m != q && m != u ==>
            m.Color == old(m.Color) && m.bh == old(m.bh))
    }

    method leftTop(q: RBNode<K, V>, w: RBNode<K, V>, u: RBNode<K, V>)
      requires Shape() && q in Nodes && w in Nodes && u in Nodes && q.Right == w && w.Right == u
      modifies this`Root, Nodes`Left, Nodes`Right, Nodes`Parent, Nodes`lo, Nodes`hi, Nodes`Color, Nodes`bh
      ensures LeftTopped(q, w, u) && Shape()
    {
      assert Local(q) && Local(w);
      paintTop(q, w, u);
      leftRotate(q);
    }

    twostate lemma LeftCase4Node(new x: RBNode<K, V>, new q: RBNode<K, V>, new w: RBNode<K, V>, new u: RBNode<K, V>,
                                 new n: RBNode<K, V>)
      requires {q, w, u, n} <= old(Nodes) && old(allocated(x)) && old(Lacking(x, q, OnLeft)) && LeftTopped(q, w, u)
      requires old(w.Color) == Black && old(u.Color) == Red && old(x.Color) == Black
      requires Nil.Color == Black && Nil.bh == 0
      ensures RedFree(n, null) && BalancedBut(n, null, OnLeft)
    {
      if n == q || n == w {
        LeftCase4Top(x, q, w, u, n);
      } else {
        assert old(n != x ==> RedFree(n, x)) && old(BalancedBut(n, q, OnLeft)) && old(Local(n));
        assert old(Local(q)) && old(Local(w)) && old(Local(u));
        LeftRotatedElsewhere(q, w, n);
      }
    }

    twostate lemma LeftCase4Top(new x: RBNode<K, V>, new q: RBNode<K, V>, new w: RBNode<K, V>, new u: RBNode<K, V>,
                                new n: RBNode<K, V>)
      requires {q, w, u, n} <= old(Nodes) && old(allocated(x)) && old(Lacking(x, q, OnLeft)) && LeftTopped(q, w, u)
      requires old(w.Color) == Black && old(u.Color) == Red && old(x.Color) == Black
      requires Nil.Color == Black && Nil.bh == 0
      requires n == q || n == w
      ensures RedFree(n, null) && BalancedBut(n, null, OnLeft)
    {
      assert old(Local(q)) && old(Local(w)) && old(Local(u));
      assert w != x && u != x && q != x;
      assert old(RedFree(w, x)) && old(BalancedBut(w, q, OnLeft)) && old(RedFree(u, x))
        && old(BalancedBut(u, q, OnLeft));
      assert old(BalancedBut(q, q, OnLeft)) && old(RedFree(q, x));
    }

    method leftCase4(x: RBNode<K, V>, q: RBNode<K, V>)
      requires Lacking(x, q, OnLeft) && x.Color == Black && q.Right != null && q.Right.Color == Black
      requires q.Right.Right != null && q.Right.Right.Color == Red
      modifies this`Root, Nodes`Left, Nodes`Right, Nodes`Parent, Nodes`lo, Nodes`hi, Nodes`Color, Nodes`bh
      ensures Lacking(Root, null, OnLeft)
    {
      LackingLeft(x, q, OnLeft);
      var w := q.Right;
      var u := w.Right;
      assert Local(q) && Local(w) && Local(u);
      leftTop(q, w, u);
      forall n {:trigger RedFree(n, Root)} {:trigger BalancedBut(n, null, OnLeft)} | n in Nodes
        ensures RedFree(n, Root) && BalancedBut(n, null, OnLeft)
      {
        LeftCase4Node(x, q, w, u, n);
        assert RedFree(n, null);
      }
    }

    // One turn of the loop when x is a left child.
    method deleteFixupLeft(x: RBNode<K, V>, q: RBNode<K, V>)
      returns (x': RBNode<K, V>, ghost q': RBNode?<K, V>, ghost side: Hand)
      requires Lacking(x, q, OnLeft) && x.Color == Black
      modifies this`Root, Nodes`Left, Nodes`Right, Nodes`Parent, Nodes`lo, Nodes`hi, Nodes`Color, Nodes`bh
      ensures Lacking(x', q', side)
      ensures x' == Root || x'.Color == Red || (q' != null && old(Below(q)) < Below(q'))
    {
      LackingLeft(x, q, OnLeft);
      assert Local(q);
      var w := q.Right;
      if w.Color == Red {
        leftCase1(x, q);
        w := q.Right;
      }
      LackingLeft(x, q, OnLeft);
      assert BalancedBut(w, q, OnLeft);
      if w.Left.Color == Black && w.Right.Color == Black {
        x' := q;
        q', side := leftCase2(x, q);
        if q' != null && q.Color == Black { BelowChild(q, q'); }
      } else {
        if w.Right.Color == Black {
          leftCase3(x, q);
        }
        leftCase4(x, q);
        x', q', side := Root, null, OnLeft;
      }
    }

    // The sibling of a lacking node is a real node, so the side can be read off the links.
    lemma LackingRight(x: RBNode<K, V>, q: RBNode<K, V>, side: Hand)
      requires Lacking(x, q, side) && side == OnRight
      ensures x == q.Right && x != q.Left && q.Left in Nodes
    {
      assert BalancedBut(q, q, side) && Local(q);
      assert Local(q.Left);
      assert x != Nil ==> Local(x);
    }

    // Case 1: a red sibling w is rotated above q, and a black node becomes the sibling.
    twostate lemma RightCase1Node(new x: RBNode<K, V>, new q: RBNode<K, V>, new w: RBNode<K, V>, new n: RBNode<K, V>)
      requires {q, w, n} <= old(Nodes) && old(allocated(x)) && old(Lacking(x, q, OnRight)) && RightRaised(w, q)
      requires old(w.Color) == Red && Nil.Color == Black && Nil.bh == 0
      ensures (n != x ==> RedFree(n, x)) && BalancedBut(n, q, OnRight)
    {
      assert old(Local(n)) && old(Local(q)) && old(Local(w));
      assert w != x && q != x;
      assert old(n != x ==> RedFree(n, x)) && old(BalancedBut(n, q, OnRight));
      assert old(RedFree(w, x)) && old(BalancedBut(w, q, OnRight)) && old(RedFree(q, x))
        && old(BalancedBut(q, q, OnRight));
      if n != q && n != w { RightRotatedElsewhere(q, w, n); }
    }

    method rightCase1(x: RBNode<K, V>, q: RBNode<K, V>)
      requires Lacking(x, q, OnRight) && x.Color == Black && q.Left != null && q.Left.Color == Red
      modifies this`Root, Nodes`Right, Nodes`Left, Nodes`Parent, Nodes`lo, Nodes`hi, Nodes`Color, Nodes`bh
      ensures Lacking(x, q, OnRight) && x.Color == Black && q.Color == Red
      ensures q.Left != null && q.Left.Color == Black
    {
      LackingRight(x, q, OnRight);
      var w := q.Left;
      assert Local(q) && Local(w) && RedFree(q, x) && RedFree(w, x) && BalancedBut(q, q, OnRight);
      rightLift(w, q);
      forall n {:trigger RedFree(n, x)} {:trigger BalancedBut(n, q, OnRight)} | n in Nodes
        ensures (n != x ==> RedFree(n, x)) && BalancedBut(n, q, OnRight)
      {
        RightCase1Node(x, q, w, n);
      }
    }

    // Case 2: both nephews are black.  Reddening the sibling w moves the lack up to q.
    twostate lemma RightCase2Node(new x: RBNode<K, V>, new q: RBNode<K, V>, new w: RBNode<K, V>, new n: RBNode<K, V>,
                                  new p: RBNode?<K, V>, side: Hand)
      requires {q, w, n} <= old(Nodes) && old(allocated(x)) && old(Lacking(x, q, OnRight)) && Nodes == old(Nodes)
      requires old(q.Left) == w && old(w.Color) == Black && old(x.Color) == Black
      requires old(w.Right) != null && old(w.Right.Color) == Black && old(w.Left) != null && old(w.Left.Color) == Black
      requires w.Color == Red && w.bh == old(w.bh) - 1 && q.bh == old(q.bh) - 1
      requires forall m {:trigger m.Color} {:trigger m.bh} :: m in Nodes ==>
        (m != w ==> m.Color == old(m.Color)) && (m != w && m != q ==> m.bh == old(m.bh))
      requires n.Right == old(n.Right) && n.Left == old(n.Left)
      requires Nil.Color == Black && Nil.bh == 0 && Root == old(Root)
      requires if q == Root then p == null
               else
                 && p != null && p in old(Nodes) && p == old(q.Parent)
                 && q == (if side == OnRight then p.Right else p.Left)
      ensures (n != q ==> RedFree(n, q)) && BalancedBut(n, p, side)
    {
      assert old(n != x ==> RedFree(n, x)) && old(BalancedBut(n, q, OnRight)) && old(Local(n))
        && old(BalancedBut(q, q, OnRight));
      assert old(RedFree(w, x)) && old(BalancedBut(w, q, OnRight)) && old(Local(q)) && old(Local(w));
      if q != Root { assert old(Local(p)); }
    }

    method rightCase2(x: RBNode<K, V>, q: RBNode<K, V>) returns (ghost p: RBNode?<K, V>, ghost side: Hand)
      requires Lacking(x, q, OnRight) && x.Color == Black && q.Left != null && q.Left.Color == Black
      requires q.Left.Right != null && q.Left.Right.Color == Black && q.Left.Left != null && q.Left.Left.Color == Black
      modifies Nodes`Color, Nodes`bh
      ensures Lacking(q, p, side) && q.Color == old(q.Color)
    {
      LackingRight(x, q, OnRight);
      var w := q.Left;
      assert Local(q) && Local(w) && BalancedBut(q, q, OnRight) && BalancedBut(w, q, OnRight);
      p := if q == Root then null else q.Parent;
      side := if p != null && p.Right == q then OnRight else OnLeft;
      assert p != null && side == OnLeft ==> p.Left == q;
      paintSibling(q, w);
      forall n {:trigger RedFree(n, q)} {:trigger BalancedBut(n, p, side)} | n in Nodes
        ensures (n != q ==> RedFree(n, q)) && BalancedBut(n, p, side)
      {
        RightCase2Node(x, q, w, n, p, side);
      }
    }

    // Case 3: the far nephew is black.  Rotating the sibling w puts a red node there.
    twostate lemma RightCase3Node(new x: RBNode<K, V>, new q: RBNode<K, V>, new w: RBNode<K, V>, new v: RBNode<K, V>,
                                  new n: RBNode<K, V>)
      requires {q, w, v, n} <= old(Nodes) && old(allocated(x)) && old(Lacking(x, q, OnRight)) && LeftRaised(v, w)
      requires old(q.Left) == w && old(w.Color) == Black && old(v.Color) == Red && old(x.Color) == Black
      requires old(w.Left) != null && old(w.Left.Color) == Black
      requires Nil.Color == Black && Nil.bh == 0
      ensures (n != x ==> RedFree(n, x)) && BalancedBut(n, q, OnRight)
    {
      assert old(Local(n)) && old(Local(q)) && old(Local(w)) && old(Local(v));
      assert w != x && v != x;
      assert old(n != x ==> RedFree(n, x)) && old(BalancedBut(n, q, OnRight));
      assert old(RedFree(w, x)) && old(BalancedBut(w, q, OnRight)) && old(RedFree(v, x))
        && old(BalancedBut(v, q, OnRight)) && old(BalancedBut(q, q, OnRight));
      if n != v && n != w { LeftRotatedElsewhere(w, v, n); }
    }

    method rightCase3(x: RBNode<K, V>, q: RBNode<K, V>)
      requires Lacking(x, q, OnRight) && x.Color == Black && q.Left != null && q.Left.Color == Black
      requires q.Left.Right != null && q.Left.Right.Color == Red && q.Left.Left != null && q.Left.Left.Color == Black
      modifies this`Root, Nodes`Right, Nodes`Left, Nodes`Parent, Nodes`lo, Nodes`hi, Nodes`Color, Nodes`bh
      ensures Lacking(x, q, OnRight) && x.Color == Black
      ensures q.Left != null && q.Left.Color == Black && q.Left.Left != null && q.Left.Left.Color == Red
    {
      LackingRight(x, q, OnRight);
      var w := q.Left;
      var v := w.Right;
      assert Local(q) && Local(w) && Local(v) && BalancedBut(w, q, OnRight);
      leftLift(v, w);
      LeftRotatedElsewhere(w, v, q);
      forall n {:trigger RedFree(n, x)} {:trigger BalancedBut(n, q, OnRight)} | n in Nodes
        ensures (n != x ==> RedFree(n, x)) && BalancedBut(n, q, OnRight)
      {
        RightCase3Node(x, q, w, v, n);
      }
    }

    // Case 4: the far nephew u is red.  The sibling w takes q's place and colour, and nothing lacks any more.
    twostate predicate RightTopped(q: RBNode<K, V>, w: RBNode<K, V>, u: RBNode<K, V>)
      reads this`Root, this`Nodes, Nodes`Right, Nodes`Left, Nodes`Parent, Nodes`Color, Nodes`bh, Nodes`lo, Nodes`pos,
        Nodes`hi
    {
      && RightRotated(q, w) && old(w.Left) == u && u in Nodes
      && w.Color == old(q.Color) && q.Color == Black && u.Color == Black
      && w.bh == old(q.bh) && q.bh == old(w.bh) && u.bh == old(u.bh) + 1
      && (forall m {:trigger m.Color} {:trigger m.bh} :: m in Nodes && m != w && m != q && m != u ==>
            m.Color == old(m.Color) && m.bh == old(m.bh))
    }

    method rightTop(q: RBNode<K, V>, w: RBNode<K, V>, u: RBNode<K, V>)
      requires Shape() && q in Nodes && w in Nodes && u in Nodes && q.Left == w && w.Left == u
      modifies this`Root, Nodes`Right, Nodes`Left, Nodes`Parent, Nodes`lo, Nodes`hi, Nodes`Color, Nodes`bh
      ensures RightTopped(q, w, u) && Shape()
    {
      assert Local(q) && Local(w);
      paintTop(q, w, u);
      rightRotate(q);
    }

    twostate lemma RightCase4Node(new x: RBNode<K, V>, new q: RBNode<K, V>, new w: RBNode<K, V>, new u: RBNode<K, V>,
                                  new n: RBNode<K, V>)
      requires {q, w, u, n} <= old(Nodes) && old(allocated(x)) && old(Lacking(x, q, OnRight)) && RightTopped(q, w, u)
      requires old(w.Color) == Black && old(u.Color) == Red && old(x.Color) == Black
      requires Nil.Color == Black && Nil.bh == 0
      ensures RedFree(n, null) && BalancedBut(n, null, OnRight)
    {
      if n == q || n == w {
        RightCase4Top(x, q, w, u, n);
      } else {
        assert old(n != x ==> RedFree(n, x)) && old(BalancedBut(n, q, OnRight)) && old(Local(n));
        assert old(Local(q)) && old(Local(w)) && old(Local(u));
        RightRotatedElsewhere(q, w, n);
      }
    }

    twostate lemma RightCase4Top(new x: RBNode<K, V>, new q: RBNode<K, V>, new w: RBNode<K, V>, new u: RBNode<K, V>,
                                 new n: RBNode<K, V>)
      requires {q, w, u, n} <= old(Nodes) && old(allocated(x)) && old(Lacking(x, q, OnRight)) && RightTopped(q, w, u)
      requires old(w.Color) == Black && old(u.Color) == Red && old(x.Color) == Black
      requires Nil.Color == Black && Nil.bh == 0
      requires n == q || n == w
      ensures RedFree(n, null) && BalancedBut(n, null, OnRight)
    {
      assert old(Local(q)) && old(Local(w)) && old(Local(u));
      assert w != x && u != x && q != x;
      assert old(RedFree(w, x)) && old(BalancedBut(w, q, OnRight)) && old(RedFree(u, x))
        && old(BalancedBut(u, q, OnRight));
      assert old(BalancedBut(q, q, OnRight)) && old(RedFree(q, x));
    }

    method rightCase4(x: RBNode<K, V>, q: RBNode<K, V>)
      requires Lacking(x, q, OnRight) && x.Color == Black && q.Left != null && q.Left.Color == Black
      requires q.Left.Left != null && q.Left.Left.Color == Red
      modifies this`Root, Nodes`Right, Nodes`Left, Nodes`Parent, Nodes`lo, Nodes`hi, Nodes`Color, Nodes`bh
      ensures Lacking(Root, null, OnRight)
    {
      LackingRight(x, q, OnRight);
      var w := q.Left;
      var u := w.Left;
      assert Local(q) && Local(w) && Local(u);
      rightTop(q, w, u);
      forall n {:trigger RedFree(n, Root)} {:trigger BalancedBut(n, null, OnRight)} | n in Nodes
        ensures RedFree(n, Root) && BalancedBut(n, null, OnRight)
      {
        RightCase4Node(x, q, w, u, n);
        assert RedFree(n, null);
      }
    }

    // One turn of the loop when x is a right child.
    method deleteFixupRight(x: RBNode<K, V>, q: RBNode<K, V>)
      returns (x': RBNode<K, V>, ghost q': RBNode?<K, V>, ghost side: Hand)
      requires Lacking(x, q, OnRight) && x.Color == Black
      modifies this`Root, Nodes`Right, Nodes`Left, Nodes`Parent, Nodes`lo, Nodes`hi, Nodes`Color, Nodes`bh
      ensures Lacking(x', q', side)
      ensures x' == Root || x'.Color == Red || (q' != null && old(Below(q)) < Below(q'))
    {
      LackingRight(x, q, OnRight);
      assert Local(q);
      var w := q.Left;
      if w.Color == Red {
        rightCase1(x, q);
        w := q.Left;
      }
      LackingRight(x, q, OnRight);
      assert BalancedBut(w, q, OnRight);
      if w.Right.Color == Black && w.Left.Color == Black {
        x' := q;
        q', side := rightCase2(x, q);
        if q' != null && q.Color == Black { BelowChild(q, q'); }
      } else {
        if w.Left.Color == Black {
          rightCase3(x, q);
        }
        rightCase4(x, q);
        x', q', side := Root, null, OnRight;
      }
    }

    twostate lemma LackRepaired(new x: RBNode<K, V>, new q: RBNode?<K, V>, side: Hand, new n: RBNode<K, V>)
      requires n in old(Nodes) && old(allocated(x)) && old(allocated(q)) && old(Lacking(x, q, side))
      requires Nodes == old(Nodes) && Root == old(Root) && (x == Root || old(x.Color) == Red)
      requires x.Color == Black && x.bh == old(x.bh) + (if old(x.Color) == Red then 1 else 0)
      requires forall m {:trigger m.Color} {:trigger m.bh} :: m in Nodes && m != x ==>
        m.Color == old(m.Color) && m.bh == old(m.bh)
      requires n.Left == old(n.Left) && n.Right == old(n.Right) && Nil.Color == Black && Nil.bh == 0
      ensures RedFree(n, null) && Balanced(n)
    {
      assert old(n != x ==> RedFree(n, x)) && old(BalancedBut(n, q, side)) && old(Local(n));
      assert x in old(Nodes) ==> old(Local(x)) && old(BalancedBut(x, q, side));
    }

    method deleteFixup(x0: RBNode<K, V>, ghost q0: RBNode?<K, V>, ghost side0: Hand)
      requires Lacking(x0, q0, side0)
      modifies this`Root, Nodes`Left, Nodes`Right, Nodes`Parent, Nodes`lo, Nodes`hi, Nodes`Color, Nodes`bh, Nil`Color
      ensures Shape() && Coloured(null)
    {
      var x := x0;
      ghost var q, side := q0, side0;
      while x != Root && x.Color == Black
        invariant Lacking(x, q, side)
        decreases x != Root && x.Color == Black, if q == null then {} else Nodes - Below(q)
      {
        if side == OnLeft { LackingLeft(x, q, side); } else { LackingRight(x, q, side); }
        if x == x.Parent.Left {
          x, q, side := deleteFixupLeft(x, x.Parent);
        } else {
          x, q, side := deleteFixupRight(x, x.Parent);
        }
      }
      label L:
      if x.Color == Red { x.bh := x.bh + 1; }
      x.Color := Black;
      forall n {:trigger RedFree(n, null)} {:trigger Balanced(n)} | n in Nodes ensures RedFree(n, null) && Balanced(n) {
        LackRepaired@L(x, q, side, n);
      }
    }

    // ---- Deletion: taking a node out ------------------------------------

    method transplant(u: RBNode<K, V>, v: RBNode<K, V>)
      requires u.Parent == Nil || (u.Parent != null && u.Parent in Nodes)
      modifies this`Root, v`Parent
      modifies (if u.Parent == Nil then {} else {u.Parent})`Left, (if u.Parent == Nil then {} else {u.Parent})`Right
      ensures LeftRelinked(u, v) && v.Parent == old(u.Parent)
    {
      leftRelink(u, v);
      v.Parent := u.Parent;
    }

    // z had at most one child, x, which took its place.
    twostate predicate Spliced(z: RBNode<K, V>, x: RBNode<K, V>)
      reads this`Root, this`Nodes, Nodes`Left, Nodes`Right, Nodes`Parent, Nodes`lo, Nodes`pos, Nodes`hi, x`Parent
    {
      var p := old(z.Parent);
      && z in old(Nodes) && Nodes == old(Nodes) - {z} && p != z && x != z
      && ((old(z.Left) == Nil && old(z.Right) == x) || (old(z.Right) == Nil && old(z.Left) == x))
      && x in old(Nodes) + {Nil} && x.Parent == p
      && (p == Nil ==> Root == x)
      && (p != Nil ==>
            && Root == old(Root) && p != null && p in old(Nodes)
            && (if old(p.Left) == z then p.Left == x && p.Right == old(p.Right)
                 else p.Right == x && p.Left == old(p.Left)))
      && (forall n {:trigger n in old(Nodes)} :: n in old(Nodes) && n != z ==>
            && (n != p ==> n.Left == old(n.Left) && n.Right == old(n.Right))
            && (n != x ==> n.Parent == old(n.Parent))
            && n.lo == old(n.lo) && n.pos == old(n.pos) && n.hi == old(n.hi))
    }

    twostate lemma SplicedNode(new z: RBNode<K, V>, new x: RBNode<K, V>, new n: RBNode<K, V>)
      requires {z, n} <= old(Nodes) && old(allocated(x)) && old(Shape()) && Spliced(z, x) && n != z
      ensures Local(n)
    {
      assert old(Local(z)) && old(Local(n));
      assert x != Nil ==> old(Local(x));
    }

    twostate lemma SplicedCovered(new z: RBNode<K, V>, new x: RBNode<K, V>, new n: RBNode<K, V>, new m: RBNode<K, V>)
      requires {z, n, m} <= old(Nodes) && old(allocated(x)) && old(Shape()) && Spliced(z, x) && n != z && m != z
      ensures Covered(n, m)
    {
      assert old(Local(z)) && old(Local(n));
      assert old(Covered(n, m)) && old(Covered(z, m)) && old(Distinct(z, m));
    }

    twostate lemma SplicedShape(new z: RBNode<K, V>, new x: RBNode<K, V>)
      requires z in old(Nodes) && old(allocated(x)) && old(Shape()) && Spliced(z, x)
      requires Nil.Left == null && Nil.Right == null
      ensures Shape()
    {
      assert old(Local(z));
      forall n {:trigger Local(n)} | n in Nodes ensures Local(n) { SplicedNode(z, x, n); }
      forall n, m {:trigger Covered(n, m)} | n in Nodes && m in Nodes
        ensures Covered(n, m)
      {
        SplicedCovered(z, x, n, m);
      }
      forall m {:trigger Inside(Root, m)} | m in Nodes ensures Inside(Root, m) && Root != Nil {
        assert old(Inside(Root, m)) && old(Covered(z, m)) && old(Distinct(z, m));
      }
      if Nodes != {} {
        var m :| m in Nodes;
        assert Inside(Root, m);
      }
      forall n, m {:trigger Distinct(n, m)} | n in Nodes && m in Nodes
        ensures Distinct(n, m)
      {
        assert old(Distinct(n, m));
      }
    }

    // The colours around the gap: if z was black, x lacks one.
    twostate lemma SplicedColours(new z: RBNode<K, V>, new x: RBNode<K, V>, side: Hand, new n: RBNode<K, V>)
      requires {z, n} <= old(Nodes) && old(allocated(x)) && old(Shape() && Coloured(null)) && Spliced(z, x) && n != z
      requires forall m {:trigger m.Color} {:trigger m.bh} :: m in Nodes ==>
        m.Color == old(m.Color) && m.bh == old(m.bh)
      requires Nil.Color == Black && Nil.bh == 0
      requires side == (if x.Parent != null && x.Parent in Nodes && x.Parent.Left == x then OnLeft else OnRight)
      ensures n != x ==> RedFree(n, x)
      ensures BalancedBut(n, if old(z.Color) == Black && x != Root then x.Parent else null, side)
    {
      assert old(RedFree(n, null)) && old(Balanced(n)) && old(Balanced(z));
      assert old(Local(z)) && old(Local(n));
      assert x in old(Nodes) ==> old(Local(x));
      var p := old(z.Parent);
      if p != Nil { assert old(Local(p)) && old(Balanced(p)); }
    }

    method spliceOut(z: RBNode<K, V>, x: RBNode<K, V>) returns (ghost q: RBNode?<K, V>, ghost side: Hand)
      requires Shape() && Coloured(null) && z in Nodes
      requires (z.Left == Nil && x == z.Right) || (z.Right == Nil && x == z.Left)
      modifies this`Root, this`Nodes, Nodes`Left, Nodes`Right, Nodes`Parent, Nil`Parent
      ensures Shape() && Nodes == old(Nodes) - {z} && x in Nodes + {Nil}
      ensures if z.Color == Black then Lacking(x, q, side) else Coloured(null)
    {
      assert Local(z) && RedFree(z, null);
      assert x != Nil ==> Local(x);
      transplant(z, x);
      Nodes := Nodes - {z};
      SplicedShape(z, x);
      q := if x == Root then null else x.Parent;
      side := if x.Parent != null && x.Parent in Nodes && x.Parent.Left == x then OnLeft else OnRight;
      ghost var r := if z.Color == Black && x != Root then x.Parent else null;
      forall n {:trigger RedFree(n, x)} {:trigger BalancedBut(n, r, side)} | n in Nodes
        ensures (n != x ==> RedFree(n, x)) && BalancedBut(n, r, side)
      {
        SplicedColours(z, x, side, n);
      }
      if z.Color == Red {
        forall n {:trigger RedFree(n, null)} {:trigger Balanced(n)} | n in Nodes
          ensures RedFree(n, null) && Balanced(n)
        {
          assert (n != x ==> RedFree(n, x)) && BalancedBut(n, r, side);
        }
      }
    }

    // z had two children; its successor y left its own place to its right child x and took z's
    // place: links, interval and position.
    twostate predicate Moved(z: RBNode<K, V>, y: RBNode<K, V>, x: RBNode<K, V>)
      reads this`Root, this`Nodes, Nodes`Left, Nodes`Right, Nodes`Parent, Nodes`lo, Nodes`pos, Nodes`hi, x`Parent
    {
      var p, u := old(z.Parent), old(y.Parent);
      && z in old(Nodes) && y in old(Nodes) && z != y && Nodes == old(Nodes) - {z}
      && old(z.Left) in old(Nodes) && old(z.Right) in old(Nodes) && old(z.pos < y.pos)
      && old(y.Left) == Nil && old(y.Right) == x && x in old(Nodes) + {Nil}
      && p != u && p != z && p != y && u in old(Nodes)
      && y.lo == old(z.lo) && y.pos == old(z.pos) && y.hi == old(z.hi)
      && y.Parent == p && y.Left == old(z.Left) && y.Right == (if u == z then x else old(z.Right))
      && x.Parent == (if u == z then y else u)
      && (p == Nil ==> Root == y)
      && (p != Nil ==>
            && Root == old(Root) && p in old(Nodes)
            && (if old(p.Left) == z then p.Left == y && p.Right == old(p.Right)
                 else p.Right == y && p.Left == old(p.Left)))
      && (u != z ==>
            if old(u.Left) == y then u.Left == x && u.Right == old(u.Right) else u.Right == x && u.Left == old(u.Left))
      && (forall n {:trigger n in old(Nodes)} :: n in old(Nodes) && n != z && n != y ==>
            && (n != p && n != u ==> n.Left == old(n.Left) && n.Right == old(n.Right))
            && (n != x ==> n.Parent == (if n == old(z.Left) || n == old(z.Right) then y else old(n.Parent)))
            && n.lo == old(n.lo) && n.pos == old(n.pos) && n.hi == old(n.hi))
    }

    twostate lemma MovedTop(new z: RBNode<K, V>, new y: RBNode<K, V>, new x: RBNode<K, V>)
      requires {z, y} <= old(Nodes) && old(allocated(x)) && old(Shape()) && Moved(z, y, x)
      ensures Local(y)
    {
      assert old(Local(z)) && old(Local(y));
      assert x != Nil ==> old(Local(x));
      assert old(Local(z.Left)) && old(Local(z.Right));
    }

    twostate lemma MovedNode(new z: RBNode<K, V>, new y: RBNode<K, V>, new x: RBNode<K, V>, new n: RBNode<K, V>)
      requires {z, y, n} <= old(Nodes) && old(allocated(x)) && old(Shape()) && Moved(z, y, x) && n != z && n != y
      ensures Local(n)
    {
      if n == old(z.Parent) || n == old(y.Parent) {
        MovedParent(z, y, x, n);
      } else {
        assert old(Local(z)) && old(Local(n)) && old(Local(y));
      }
    }

    twostate lemma MovedParent(new z: RBNode<K, V>, new y: RBNode<K, V>, new x: RBNode<K, V>, new n: RBNode<K, V>)
      requires {z, y, n} <= old(Nodes) && old(allocated(x)) && old(Shape()) && Moved(z, y, x) && n != z && n != y
      requires n == old(z.Parent) || n == old(y.Parent)
      ensures Local(n)
    {
      assert old(Local(z)) && old(Local(n)) && old(Local(y));
    }

    twostate lemma MovedCovered(new z: RBNode<K, V>, new y: RBNode<K, V>, new x: RBNode<K, V>, new n: RBNode<K, V>,
                                new m: RBNode<K, V>)
      requires {z, y, n, m} <= old(Nodes) && old(allocated(x)) && old(Shape()) && Moved(z, y, x) && n != z && m != z
      ensures Covered(n, m)
    {
      assert old(Local(z)) && old(Local(n)) && old(Local(y));
      assert old(Covered(n, m)) && old(Covered(z, m)) && old(Distinct(z, m)) && old(Covered(y, m))
        && old(Distinct(y, m));
      assert old(Covered(n, z)) && old(Covered(y, z));
    }

    twostate lemma MovedShape(new z: RBNode<K, V>, new y: RBNode<K, V>, new x: RBNode<K, V>)
      requires {z, y} <= old(Nodes) && old(allocated(x)) && old(Shape()) && Moved(z, y, x)
      requires Nil.Left == null && Nil.Right == null
      ensures Shape()
    {
      assert old(Local(z));
      forall n {:trigger Local(n)} | n in Nodes ensures Local(n) {
        if n == y { MovedTop(z, y, x); } else { MovedNode(z, y, x, n); }
      }
      forall n, m {:trigger Covered(n, m)} | n in Nodes && m in Nodes
        ensures Covered(n, m)
      {
        MovedCovered(z, y, x, n, m);
      }
      forall m {:trigger Inside(Root, m)} | m in Nodes ensures Inside(Root, m) {
        assert old(Inside(Root, m)) && old(Inside(Root, z)) && old(Local(y));
      }
      forall n, m {:trigger Distinct(n, m)} | n in Nodes && m in Nodes ensures Distinct(n, m) {
        assert old(Distinct(n, m)) && old(Distinct(z, m)) && old(Distinct(n, z));
      }
    }

    // z's place keeps its colour and height; if y was black, x lacks one.
    twostate lemma MovedReds(new z: RBNode<K, V>, new y: RBNode<K, V>, new x: RBNode<K, V>, new n: RBNode<K, V>)
      requires {z, y, n} <= old(Nodes) && old(allocated(x)) && old(Shape() && Coloured(null)) && Moved(z, y, x)
        && n != z
      requires y.Color == old(z.Color) && y.bh == old(z.bh)
      requires forall m {:trigger m.Color} {:trigger m.bh} :: m in Nodes && m != y ==>
        m.Color == old(m.Color) && m.bh == old(m.bh)
      requires Nil.Color == Black && Nil.bh == 0
      ensures n != x ==> RedFree(n, x)
    {
      assert old(RedFree(n, null)) && old(RedFree(z, null));
      assert old(Local(z)) && old(Local(n)) && old(Local(y));
    }

    twostate lemma MovedHeightsHere(new z: RBNode<K, V>, new y: RBNode<K, V>, new x: RBNode<K, V>, side: Hand,
                                    new n: RBNode<K, V>)
      requires {z, y, n} <= old(Nodes) && old(allocated(x)) && old(Shape() && Coloured(null)) && Moved(z, y, x)
        && n != z
      requires y.Color == old(z.Color) && y.bh == old(z.bh)
      requires forall m {:trigger m.Color} {:trigger m.bh} :: m in Nodes && m != y ==>
        m.Color == old(m.Color) && m.bh == old(m.bh)
      requires Nil.Color == Black && Nil.bh == 0
      requires n == x.Parent && side == (if n.Left == x then OnLeft else OnRight)
      ensures BalancedBut(n, if old(y.Color) == Black then n else null, side)
    {
      assert old(Balanced(n)) && old(Balanced(z)) && old(Balanced(y));
      assert old(Local(z)) && old(Local(n)) && old(Local(y));
      assert x in old(Nodes) ==> old(Local(x));
    }

    twostate lemma MovedHeightsThere(new z: RBNode<K, V>, new y: RBNode<K, V>, new x: RBNode<K, V>, new n: RBNode<K, V>)
      requires {z, y, n} <= old(Nodes) && old(allocated(x)) && old(Shape() && Coloured(null)) && Moved(z, y, x)
        && n != z
      requires y.Color == old(z.Color) && y.bh == old(z.bh)
      requires forall m {:trigger m.Color} {:trigger m.bh} :: m in Nodes && m != y ==>
        m.Color == old(m.Color) && m.bh == old(m.bh)
      requires Nil.Color == Black && Nil.bh == 0
      requires n != x.Parent
      ensures Balanced(n)
    {
      assert old(Balanced(n)) && old(Balanced(z)) && old(Balanced(y));
      assert old(Local(z)) && old(Local(n)) && old(Local(y));
      assert x in old(Nodes) ==> old(Local(x));
    }

    // The leftmost node below x0: no node inside x0's interval comes before it.
    method minimum(x0: RBNode<K, V>) returns (x: RBNode<K, V>)
      requires Shape() && x0 in Nodes
      ensures x in Nodes && x.Left == Nil && Inside(x0, x)
      ensures forall m {:trigger Inside(x0, m)} :: m in Nodes && Inside(x0, m) ==> x.pos <= m.pos
    {
      x := x0;
      while x.Left != Nil
        invariant x in Nodes && x0.lo <= x.lo && x.hi <= x0.hi
        invariant forall m {:trigger Inside(x0, m)} :: m in Nodes && Inside(x0, m) && m.pos < x.pos ==> Inside(x, m)
        decreases Below(x)
      {
        assert Local(x) && Local(x.Left);
        RemainingShrinks(x, x.Left);
        forall m {:trigger Inside(x0, m)} | m in Nodes && Inside(x0, m) && m.pos < x.Left.pos
          ensures Inside(x.Left, m)
        {
          assert Inside(x, m) && Covered(x, m);
        }
        x := x.Left;
      }
      assert Local(x);
      forall m {:trigger Inside(x0, m)} | m in Nodes && Inside(x0, m) ensures x.pos <= m.pos {
        assert m.pos < x.pos ==> Inside(x, m);
        assert Covered(x, m);
      }
    }

    // The first node below the right child of z is the first node after z.
    lemma FirstAfter(z: RBNode<K, V>, y: RBNode<K, V>)
      requires Shape() && {z, y} <= Nodes && z.Right in Nodes && Inside(z.Right, y)
      requires forall m {:trigger Inside(z.Right, m)} :: m in Nodes && Inside(z.Right, m) ==> y.pos <= m.pos
      ensures z.pos < y.pos && Inside(z, y)
      ensures forall m {:trigger m in Nodes} :: m in Nodes && z.pos < m.pos ==> y.pos <= m.pos
    {
      assert Local(z) && Local(z.Right);
      forall m {:trigger m in Nodes} | m in Nodes && z.pos < m.pos ensures y.pos <= m.pos {
        assert Covered(z, m);
      }
    }

    ghost predicate Successor(z: RBNode<K, V>, y: RBNode<K, V>, x: RBNode<K, V>)
      reads this`Root, this`Nodes, Nodes`Left, Nodes`Right, Nodes`Parent, Nodes`lo, Nodes`pos, Nodes`hi, Nil`Left,
        Nil`Right
    {
      && Shape() && z in Nodes && y in Nodes && z != y
      && z.Left in Nodes && z.Right in Nodes && y.Left == Nil && y.Right == x && x in Nodes + {Nil}
      && Inside(z, y) && z.pos < y.pos
    }

    lemma SuccessorLinks(z: RBNode<K, V>, y: RBNode<K, V>, x: RBNode<K, V>)
      requires Successor(z, y, x)
      ensures z.Parent != null && z.Parent in Nodes + {Nil} && z.Parent != z && z.Parent != y && z.Parent != y.Parent
      ensures y.Parent in Nodes && y.Parent != y && x != y && x != z && x != z.Left && z.Left != z.Right && z.Right != z
      ensures y.Parent != z ==> x != z.Right && y != z.Right
      ensures y.Parent == z ==> z.Right == y
      ensures y.Parent.Left == y || y.Parent.Right == y
      ensures z.Left != y && z.Left != y.Parent
      ensures z.Parent != Nil ==> z.Parent.Left == z || z.Parent.Right == z
    {
      assert Local(z) && Local(y) && Covered(y, z) && Inside(Root, z);
      assert Local(z.Left) && Local(z.Right);
      assert x != Nil ==> Local(x);
      assert y != Root;
      assert Local(y.Parent);
      assert z.Parent != Nil ==> Local(z.Parent);
    }

    // y leaves its place to its right child and takes over z's right subtree.
    method detach(z: RBNode<K, V>, y: RBNode<K, V>, x: RBNode<K, V>)
      requires Successor(z, y, x)
      modifies this`Root, Nodes`Left, Nodes`Right, Nodes`Parent, Nil`Parent
      ensures Root == old(Root) && Nil !in Nodes
      ensures var u := old(y.Parent);
        && u in Nodes && y.Right == (if u == z then x else old(z.Right)) && y.Left == Nil
        && x.Parent == (if u == z then y else u)
        && (u != z ==> old(z.Right) != null && old(z.Right).Parent == y)
        && (u != z ==>
              if old(u.Left) == y then u.Left == x && u.Right == old(u.Right)
                else u.Right == x && u.Left == old(u.Left))
        && (forall n {:trigger n in Nodes} :: n in Nodes && n != y ==>
              && (u == z || n != u ==> n.Left == old(n.Left) && n.Right == old(n.Right))
              && (n != x && (u == z || n != old(z.Right)) ==> n.Parent == old(n.Parent)))
    {
      SuccessorLinks(z, y, x);
      if y.Parent == z {
        x.Parent := y;
      } else {
        transplant(y, y.Right);
        y.Right := z.Right;
        y.Right.Parent := y;
      }
    }

    // y takes over z's place in its parent, its left subtree, its colour and its tags.
    method takePlace(z: RBNode<K, V>, y: RBNode<K, V>)
      requires z in Nodes && y in Nodes && z != y && z.Left in Nodes && z.Left != y && z.Left != null
      requires z.Parent != null && z.Parent in Nodes + {Nil} && z.Parent != z && z.Parent != y && Nil !in Nodes
      modifies this`Root, y`Left, y`Parent, z.Left`Parent, y`Color, y`lo, y`pos, y`hi, y`bh
      modifies (if z.Parent == Nil then {} else {z.Parent})`Left, (if z.Parent == Nil then {} else {z.Parent})`Right
      ensures LeftRelinked(z, y) && y.Parent == old(z.Parent) && y.Left == z.Left && z.Left == old(z.Left)
        && z.Left.Parent == y
      ensures y.Color == z.Color && y.lo == z.lo && y.pos == z.pos && y.hi == z.hi && y.bh == z.bh
    {
      transplant(z, y);
      y.Left := z.Left;
      y.Left.Parent := y;
      y.Color := z.Color;
      y.lo, y.pos, y.hi, y.bh := z.lo, z.pos, z.hi, z.bh;
    }

    method moveUp(z: RBNode<K, V>, y: RBNode<K, V>, x: RBNode<K, V>)
      requires Successor(z, y, x)
      modifies this`Root, this`Nodes, Nodes`Left, Nodes`Right, Nodes`Parent, Nodes`lo, Nodes`hi, Nodes`Color,
        Nodes`bh, Nodes`pos, Nil`Parent
      ensures Moved(z, y, x) && y.Color == old(z.Color) && y.bh == old(z.bh)
      ensures forall m {:trigger m.Color} {:trigger m.bh} :: m in Nodes && m != y ==>
        m.Color == old(m.Color) && m.bh == old(m.bh)
    {
      SuccessorLinks(z, y, x);
      detach(z, y, x);
      takePlace(z, y);
      Nodes := Nodes - {z};
    }

    ghost function Without(nodes: seq<RBNode<K, V>>, i: nat): seq<RBNode<K, V>>
      requires i < |nodes|
    {
      nodes[..i] + nodes[i + 1..]
    }

    // Replacing a node that has two children by its successor.
    method takeSuccessor(z: RBNode<K, V>, y: RBNode<K, V>, x: RBNode<K, V>)
      returns (ghost q: RBNode?<K, V>, ghost side: Hand)
      requires Successor(z, y, x) && Coloured(null)
      modifies this`Root, this`Nodes, Nodes`Left, Nodes`Right, Nodes`Parent, Nodes`lo, Nodes`pos, Nodes`hi,
        Nodes`Color, Nodes`bh, Nil`Parent
      ensures Shape() && Nodes == old(Nodes) - {z} && x in Nodes + {Nil}
      ensures forall n {:trigger n.pos} :: n in Nodes ==> n.pos == (if n == y then old(z.pos) else old(n.pos))
      ensures if old(y.Color) == Black then Lacking(x, q, side) else Coloured(null)
    {
      SuccessorLinks(z, y, x);
      assert RedFree(y, null) && Local(z) && Local(y);
      assert z != Root ==> Root != y;
      moveUp(z, y, x);
      MovedShape(z, y, x);
      assert x != Nil ==> Local(x);
      side := if x.Parent != null && x.Parent in Nodes && x.Parent.Left == x then OnLeft else OnRight;
      q := x.Parent;
      forall n {:trigger RedFree(n, x)} | n in Nodes && n != x ensures RedFree(n, x) { MovedReds(z, y, x, n); }
      ghost var r := if old(y.Color) == Black then q else null;
      forall n {:trigger BalancedBut(n, r, side)} | n in Nodes ensures BalancedBut(n, r, side) {
        if n == x.Parent { MovedHeightsHere(z, y, x, side, n); } else { MovedHeightsThere(z, y, x, n); }
      }
      if old(y.Color) == Red {
        forall n {:trigger RedFree(n, null)} {:trigger Balanced(n)} | n in Nodes
          ensures RedFree(n, null) && Balanced(n)
        {
          assert (n != x ==> RedFree(n, x)) && BalancedBut(n, r, side);
        }
      }
    }

    // z is gone, and y, when it is another node, stands where z stood.
    twostate predicate StoodIn(z: RBNode<K, V>, y: RBNode<K, V>)
      reads this`Nodes, Nodes`pos
    {
      && z in old(Nodes) && y in old(Nodes) && Nodes == old(Nodes) - {z}
      && (forall n {:trigger n.pos} :: n in Nodes ==> n.pos == (if n == y then old(z.pos) else old(n.pos)))
      && old(z.pos <= y.pos)
      && (forall m {:trigger m in old(Nodes)} :: m in old(Nodes) ==> old(z.pos < m.pos && z != y ==> y.pos <= m.pos))
    }

    twostate lemma StillIncreasing(new z: RBNode<K, V>, new y: RBNode<K, V>, i: nat)
      requires {z, y} <= old(Nodes) && old(Lists(Order, Nodes)) && StoodIn(z, y)
      requires Order == old(Order) && i < |Order| && Order[i] == z
      ensures Increasing(Without(Order, i))
    {
      var rest := Without(Order, i);
      forall j, k {:trigger rest[j], rest[k]} | 0 <= j < k < |rest|
        ensures rest[j].pos < rest[k].pos && !less(rest[k].Key, rest[j].Key)
      {
        var j', k' := if j < i then j else j + 1, if k < i then k else k + 1;
        assert rest[j] == Order[j'] && rest[k] == Order[k'];
        assert Order[j'] in Order && Order[k'] in Order;
        assert old(Order[j'].pos < Order[k'].pos);
        assert j' < i ==> old(Order[j'].pos < Order[i].pos);
        assert i < j' ==> old(Order[i].pos < Order[j'].pos);
        assert i < k' ==> old(Order[i].pos < Order[k'].pos);
      }
    }

    lemma WithoutListed(nodes: seq<RBNode<K, V>>, these: set<RBNode<K, V>>, i: nat, n: RBNode<K, V>)
      requires Lists(nodes, these) && i < |nodes|
      ensures n in Without(nodes, i) <==> n in these && n != nodes[i]
    {
      var rest := Without(nodes, i);
      if n in these && n != nodes[i] {
        assert n in nodes;
        var j :| 0 <= j < |nodes| && nodes[j] == n;
        assert rest[if j < i then j else j - 1] == n;
      }
      if n in rest {
        var j :| 0 <= j < |rest| && rest[j] == n;
        var j' := if j < i then j else j + 1;
        assert n == nodes[j'] && n in nodes;
        assert nodes[if j' < i then j' else i].pos < nodes[if j' < i then i else j'].pos;
      }
    }

    // Take z out of the tree; x is where a black node may now be lacking.
    method unlink(z: RBNode<K, V>)
      returns (x: RBNode<K, V>, yOriginalColor: Color, ghost y: RBNode<K, V>, ghost q: RBNode?<K, V>, ghost side: Hand)
      requires Shape() && Coloured(null) && z in Nodes
      modifies this`Nodes, this`Root, Nodes`Left, Nodes`Right, Nodes`Parent, Nodes`lo, Nodes`pos, Nodes`hi,
        Nodes`Color, Nodes`bh, Nil`Parent
      ensures y in old(Nodes) && Shape() && StoodIn(z, y)
      ensures if yOriginalColor == Black then Lacking(x, q, side) else Coloured(null)
    {
      assert Local(z);
      y := z;
      yOriginalColor := z.Color;
      if z.Left == Nil {
        x := z.Right;
        q, side := spliceOut(z, x);
      } else if z.Right == Nil {
        x := z.Left;
        q, side := spliceOut(z, x);
      } else {
        var y' := minimum(z.Right);
        FirstAfter(z, y');
        y := y';
        yOriginalColor := y'.Color;
        assert Local(y');
        x := y'.Right;
        q, side := takeSuccessor(z, y', x);
      }
    }

    // A node with this key is no longer listed, and the others keep their order.
    twostate predicate DeletedAt(i: nat, key: K)
      reads this`Order
    {
      i < |old(Order)| && old(Order)[i].Key == key && Order == old(Order)[..i] + old(Order)[i + 1..]
    }

    lemma WithoutAll(z: RBNode<K, V>, i: nat)
      requires Valid() && i < |Order| && Order[i] == z
      ensures z in Nodes
      ensures forall n {:trigger n in Without(Order, i)} :: n in Without(Order, i) <==> n in Nodes && n != z
    {
      assert z in Order;
      forall n {:trigger n in Without(Order, i)} ensures n in Without(Order, i) <==> n in Nodes && n != z {
        WithoutListed(Order, Nodes, i, n);
      }
    }

    // Remove the node z, listed at index i.
    method remove(z: RBNode<K, V>, ghost i: nat)
      requires Valid() && i < |Order| && Order[i] == z
      modifies this, Nodes, Nil
      ensures Valid() && Order == Without(old(Order), i) && Nodes <= old(Nodes)
    {
      WithoutAll(z, i);
      ghost var y, q, side;
      var x, yOriginalColor;
      x, yOriginalColor, y, q, side := unlink(z);
      StillIncreasing(z, y, i);
      Order := Without(Order, i);
      if yOriginalColor == Black {
        deleteFixup(x, q, side);
      }
    }

    method Delete(key: K) returns (ok: bool)
      requires Valid()
      modifies this, Nodes, Nil
      ensures Valid() && Nodes <= old(Nodes)
      ensures ok <==> exists n :: n in old(Order) && n.Key == key
      ensures ok ==> exists i: nat :: DeletedAt(i, key)
      ensures !ok ==> Order == old(Order)
    {
      var z := Search(key);
      if z == null {
        return false;
      }
      ghost var i: nat :| i < |Order| && Order[i] == z;
      remove(z, i);
      assert DeletedAt(i, key);
      return true;
    }

    // ---- Traversal and height -------------------------------------------

    ghost function Keys(nodes: seq<RBNode<K, V>>): (keys: seq<K>)
      ensures |keys| == |nodes| && forall i {:trigger keys[i]} :: 0 <= i < |nodes| ==> keys[i] == nodes[i].Key
    {
      seq(|nodes|, i requires 0 <= i < |nodes| => nodes[i].Key)
    }

    // Order[a..b] is the subtree of node.
    ghost predicate Stretch(node: RBNode<K, V>, a: nat, b: nat)
      reads this`Order, this`Nodes, Order`pos, node`lo, node`hi
    {
      && a <= b <= |Order|
      && if node == Nil then a == b
         else node in Nodes && forall i {:trigger Order[i]} :: 0 <= i < |Order| ==>
           (a <= i < b <==> Inside(node, Order[i]))
    }

    lemma StretchSplits(node: RBNode<K, V>, a: nat, b: nat) returns (c: nat)
      requires Valid() && node != Nil && Stretch(node, a, b)
      ensures a <= c < b && Order[c] == node && node.Left != null && node.Right != null
      ensures Stretch(node.Left, a, c) && Stretch(node.Right, c + 1, b)
    {
      assert Local(node) && node in Order;
      c :| 0 <= c < |Order| && Order[c] == node;
      forall i {:trigger Order[i]} | 0 <= i < |Order|
        ensures node.Left != Nil ==> (a <= i < c <==> Inside(node.Left, Order[i]))
        ensures node.Right != Nil ==> (c + 1 <= i < b <==> Inside(node.Right, Order[i]))
        ensures a <= i < c ==> node.Left != Nil
        ensures c < i < b ==> node.Right != Nil
      {
        assert Order[i] in Order && Covered(node, Order[i]);
      }
      assert a < c ==> Inside(node, Order[a]);
      assert c + 1 < b ==> Inside(node, Order[c + 1]);
    }

    lemma KeysSplit(nodes: seq<RBNode<K, V>>, a: nat, c: nat, b: nat)
      requires a <= c < b <= |nodes|
      ensures Keys(nodes[a..b]) == Keys(nodes[a..c]) + [nodes[c].Key] + Keys(nodes[c + 1..b])
    {
    }

    method inOrderHelper(node: RBNode<K, V>, result: seq<K>, ghost a: nat, ghost b: nat) returns (result': seq<K>)
      requires Valid() && Stretch(node, a, b)
      ensures result' == result + Keys(Order[a..b])
      decreases b - a
    {
      result' := result;
      if node != Nil {
        ghost var c := StretchSplits(node, a, b);
        result' := inOrderHelper(node.Left, result', a, c);
        result' := result' + [node.Key];
        result' := inOrderHelper(node.Right, result', c + 1, b);
        KeysSplit(Order, a, c, b);
      }
    }

    lemma RootStretch()
      requires Valid()
      ensures Stretch(Root, 0, |Order|)
    {
      forall i {:trigger Order[i]} | 0 <= i < |Order| ensures Root != Nil && Inside(Root, Order[i]) {
        assert Order[i] in Order;
      }
      assert |Order| > 0 ==> Order[0] in Order;
    }

    lemma KeysAscend()
      requires Valid()
      ensures var keys := Keys(Order); forall i, j :: 0 <= i < j < |keys| ==> !less(keys[j], keys[i])
    {
      var keys := Keys(Order);
      forall i, j | 0 <= i < j < |keys| ensures !less(keys[j], keys[i]) {
        assert keys[i] == Order[i].Key && keys[j] == Order[j].Key;
      }
    }

    method InOrderTraversal() returns (result: seq<K>)
      requires Valid()
      ensures result == Keys(Order)
      ensures forall i, j :: 0 <= i < j < |result| ==> !less(result[j], result[i])
    {
      RootStretch();
      KeysAscend();
      result := inOrderHelper(Root, [], 0, |Order|);
      assert Order[0..|Order|] == Order;
    }

    ghost function Height(n: RBNode<K, V>): nat
      requires Shape() && n in Nodes + {Nil}
      reads this, Nodes, Nil, n
      decreases Remaining(n)
    {
      if n == Nil then 0
      else
        assert Local(n);
        RemainingShrinks(n, n.Left);
        RemainingShrinks(n, n.Right);
        var l, r := Height(n.Left), Height(n.Right);
        1 + if l < r then r else l
    }

    lemma HeightBound(n: RBNode<K, V>)
      requires Shape() && Coloured(null) && n in Nodes + {Nil}
      ensures Height(n) <= 2 * n.bh + (if n.Color == Red then 1 else 0)
      ensures Pow2(n.bh) <= |Remaining(n)| + 1
      decreases Remaining(n)
    {
      if n != Nil {
        assert Local(n) && RedFree(n, null) && Balanced(n);
        RemainingShrinks(n, n.Left);
        RemainingShrinks(n, n.Right);
        HeightBound(n.Left);
        HeightBound(n.Right);
        assert Remaining(n.Left) !! Remaining(n.Right);
        assert n !in Remaining(n.Left) && n !in Remaining(n.Right);
        assert Remaining(n.Left) + Remaining(n.Right) + {n} <= Remaining(n);
        SubsetSize(Remaining(n.Left) + Remaining(n.Right) + {n}, Remaining(n));
      }
    }

    lemma ListSize(nodes: seq<RBNode<K, V>>, these: set<RBNode<K, V>>)
      requires Lists(nodes, these)
      ensures |nodes| == |these|
      decreases |nodes|
    {
      if nodes != [] {
        var k := |nodes| - 1;
        forall n {:trigger n in nodes[..k]} ensures n in nodes[..k] <==> n in these - {nodes[k]} {
          assert Without(nodes, k) == nodes[..k];
          WithoutListed(nodes, these, k, n);
        }
        assert nodes[k] in nodes;
        ListSize(nodes[..k], these - {nodes[k]});
      } else {
        forall n {:trigger n in these} ensures n !in these { assert n in these ==> n in nodes; }
        assert these == {};
      }
    }

    /** The height h of a tree of n keys obeys 2^h <= (n + 1)^2, that is h <= 2 log2(n + 1). */
    lemma LogarithmicHeight()
      requires Valid()
      ensures Root in Nodes + {Nil} && Pow2(Height(Root)) <= (|Order| + 1) * (|Order| + 1)
    {
      HeightBound(Root);
      ListSize(Order, Nodes);
      SubsetSize(Remaining(Root), Nodes);
      Pow2Squared(Height(Root), Root.bh, |Order| + 1);
    }
  }

  lemma SquareGrows(p: nat, n: nat)
    requires p <= n
    ensures p * p <= n * n
  {
    assert p * p <= p * n;
    assert p * n <= n * n;
  }

  lemma {:induction false} Pow2Squared(h: nat, b: nat, n: nat)
    requires h <= 2 * b && Pow2(b) <= n
    ensures Pow2(h) <= n * n
  {
    Pow2Grows(h, 2 * b);
    Pow2Sum(b, b);
    SquareGrows(Pow2(b), n);
  }
}
