// The red-black tree of one in-core table (src/db_sqlite/btree_rb.c:72-580, 745-1163): nodes linked
// in place by rotations and rebalancing loops. Every node carries ghost fields that say what its
// subtree is (its black height, its place in the sorted list of entries), and the invariants relate
// only neighbouring nodes, so each step has to restore them at the few nodes it touches.
module RedBlackTree {

  import opened Keys

  class Node {
    var key: Key
    var data: Data
    var isBlack: bool
    var parent: Node?
    var left: Node?
    var right: Node?
    ghost var lo: int
    ghost var pos: int
    ghost var hi: int
    ghost var bh: nat
    constructor (key: Key, data: Data)
      ensures this.key == key && this.data == data && !isBlack
      ensures parent == null && left == null && right == null && bh == 0
    {
      this.key, this.data := key, data;
      isBlack, parent, left, right, bh := false, null, null, null, 0;
    }
  }

  // Black nodes on any path from n down to a null link, n included.
  ghost function Height(n: Node?): nat
    reads n
  {
    if n == null then 0 else n.bh + if n.isBlack then 1 else 0
  }

  // Number of entries in the subtree at n.
  ghost function Width(n: Node?): int
    reads n
  {
    if n == null then 0 else n.hi - n.lo
  }

  ghost predicate IsRed(n: Node?)
    reads n
  {
    n != null && !n.isBlack
  }

  // The search has excluded everything outside [lo, hi).
  ghost predicate Narrowed(e: seq<Entry>, key: Key, lo: int, hi: int) {
    && 0 <= lo <= hi <= |e|
    && (forall i :: 0 <= i < lo ==> Less(e[i].0, key))
    && (forall i :: hi <= i < |e| ==> Less(key, e[i].0))
  }

  lemma Narrow(e: seq<Entry>, key: Key, lo: int, pos: int, hi: int)
    requires Sorted(e) && lo <= pos < hi && Narrowed(e, key, lo, hi)
    ensures KeyCompare(e[pos].0, key) == -1 ==> Narrowed(e, key, pos + 1, hi)
    ensures KeyCompare(e[pos].0, key) == 1 ==> Narrowed(e, key, lo, pos)
    ensures KeyCompare(e[pos].0, key) == 0 ==> e[pos].0 == key
  {
    KeyCompareOrder(e[pos].0, key);
    if Less(e[pos].0, key) {
      forall i | 0 <= i < pos + 1 ensures Less(e[i].0, key) { if i < pos { LessTransitive(e[i].0, e[pos].0, key); } }
    }
    if Less(key, e[pos].0) {
      forall i | pos <= i < |e| ensures Less(key, e[i].0) { if i > pos { LessTransitive(key, e[pos].0, e[i].0); } }
    }
  }

  class BtRbTree {
    var head: Node?
    ghost var repr: set<Node>
    ghost var entries: seq<Entry>

    ghost predicate Linked(n: Node)
      requires n in repr
      reads this`head, this`repr, this`entries
      reads repr`left, repr`right, repr`parent, repr`lo, repr`pos, repr`hi, repr`key, repr`data
    {
      && 0 <= n.lo <= n.pos < n.hi <= |entries|
      && (n.key, n.data) == entries[n.pos]
      && (n.left == null <==> n.lo == n.pos)
      && (n.left != null ==> n.left in repr && n.left.parent == n && n.left.lo == n.lo && n.left.hi == n.pos)
      && (n.right == null <==> n.hi == n.pos + 1)
      && (n.right != null ==> n.right in repr && n.right.parent == n && n.right.lo == n.pos + 1 && n.right.hi == n.hi)
      && (n.parent == null <==> n == head)
      && (n.parent != null ==> n.parent in repr && (n.parent.left == n || n.parent.right == n))
    }

    ghost predicate Shape()
      reads this`head, this`repr, this`entries
      reads repr`left, repr`right, repr`parent, repr`lo, repr`pos, repr`hi, repr`key, repr`data
    {
      && (head == null <==> |entries| == 0)
      && (head == null ==> repr == {})
      && (head != null ==> head in repr && head.lo == 0 && head.hi == |entries|)
      && forall n {:trigger Linked(n)} :: n in repr ==> Linked(n)
    }

    // The slot of the parent (or the head) that held x now holds y.
    method ReplaceChild(x: Node, y: Node?)
      requires x in repr
      requires x.parent != null ==> x.parent in repr && (x.parent.left == x || x.parent.right == x)
      requires x.parent == null <==> x == head
      requires y != null ==> y in repr
      modifies this`head, repr`left, repr`right, repr`parent
      ensures var p := old(x.parent);
        && head == (if p == null then y else old(head))
        && (y != null ==> y.parent == p)
        && (p != null && old(p.left) == x ==> p.left == y && p.right == old(p.right))
        && (p != null && old(p.left) != x ==> p.right == y && p.left == old(p.left))
        && unchanged((repr - {p})`left, (repr - {p})`right, (repr - {y})`parent)
    {
      var p := x.parent;
      if y != null {
        y.parent := p;
      }
      if p != null {
        if p.left == x {
          p.left := y;
        } else {
          p.right := y;
        }
      } else {
        head := y;
      }
    }

    lemma LeftChildLinks(x: Node)
      requires Shape() && x in repr
      ensures x.parent == null <==> x == head
      ensures x.parent != x
      ensures x.parent != null ==>
        x.parent in repr && (x.parent.left == x || x.parent.right == x) && (x.parent.left == x ==> x.parent.right != x)
      ensures forall n :: n in repr && (n.left == x || n.right == x) ==> n == x.parent
      ensures x.right != null ==> x.right in repr && x.right != x && x.right != x.parent && x.right.parent == x
      ensures x.right != null && x.right.left != null ==>
        x.right.left in repr && x.right.left != x && x.right.left != x.right && x.right.left != x.parent
    {
      assert Linked(x);
      assert x.parent != null ==> Linked(x.parent);
      assert x.right != null ==> Linked(x.right);
      assert x.right != null && x.right.left != null ==> Linked(x.right.left);
      forall n | n in repr && (n.left == x || n.right == x) ensures n == x.parent { assert Linked(n); }
    }

    twostate predicate RotatedLeft(x: Node, new y: Node)
      reads this`head, this`repr, this`entries
      reads repr`left, repr`right, repr`parent, repr`lo, repr`pos, repr`hi, repr`key, repr`data
    {
      && repr == old(repr) && entries == old(entries)
      && x in repr && y in repr && y == old(x.right) && y != x
      && head == (if old(head) == x then y else old(head))
      && x.left == old(x.left) && x.right == old(y.left) && x.parent == y
      && y.left == x && y.right == old(y.right) && y.parent == old(x.parent)
      && x.lo == old(x.lo) && x.hi == y.pos && y.lo == old(x.lo) && y.hi == old(x.hi)
      && unchanged(repr`pos, repr`key, repr`data)
      && forall n {:trigger n in repr} :: n in repr && n != x && n != y ==>
        && n.lo == old(n.lo) && n.hi == old(n.hi)
        && n.left == (if old(n.left) == x then y else old(n.left))
        && n.right == (if old(n.right) == x then y else old(n.right))
        && n.parent == (if n == old(y.left) then x else old(n.parent))
    }

    twostate lemma RotatedLeftLinked(x: Node, new y: Node, new n: Node)
      requires old(Shape()) && RotatedLeft(x, y) && n in repr
      ensures Linked(n)
    {
      assert old(Linked(x)) && old(Linked(y)) && old(Linked(n));
    }

    twostate lemma RotatedLeftShape(x: Node, new y: Node)
      requires old(Shape()) && RotatedLeft(x, y)
      ensures Shape()
    {
      forall n | n in repr ensures Linked(n) { RotatedLeftLinked(x, y, n); }
      assert old(Linked(x)) && old(head) != null;
    }

    method LeftRotate(x: Node)
      requires Shape() && x in repr && x.right != null
      modifies this`head, repr`left, repr`right, repr`parent, repr`lo, repr`hi
      ensures old(x.right) in repr && RotatedLeft(x, old(x.right)) && Shape()
    {
      LeftChildLinks(x);
      var y := x.right;
      var b := y.left;
      ReplaceChild(x, y);
      y.left := x;
      x.parent := y;
      x.right := b;
      if b != null {
        b.parent := x;
      }
      y.lo, y.hi, x.hi := x.lo, x.hi, y.pos;
      RotatedLeftShape(x, y);
    }

    lemma RightChildLinks(x: Node)
      requires Shape() && x in repr
      ensures x.parent == null <==> x == head
      ensures x.parent != x
      ensures x.parent != null ==>
        x.parent in repr && (x.parent.right == x || x.parent.left == x) && (x.parent.right == x ==> x.parent.left != x)
      ensures forall n :: n in repr && (n.right == x || n.left == x) ==> n == x.parent
      ensures x.left != null ==> x.left in repr && x.left != x && x.left != x.parent && x.left.parent == x
      ensures x.left != null && x.left.right != null ==>
        x.left.right in repr && x.left.right != x && x.left.right != x.left && x.left.right != x.parent
    {
      assert Linked(x);
      assert x.parent != null ==> Linked(x.parent);
      assert x.left != null ==> Linked(x.left);
      assert x.left != null && x.left.right != null ==> Linked(x.left.right);
      forall n | n in repr && (n.right == x || n.left == x) ensures n == x.parent { assert Linked(n); }
    }

    twostate predicate RotatedRight(x: Node, new y: Node)
      reads this`head, this`repr, this`entries
      reads repr`right, repr`left, repr`parent, repr`hi, repr`pos, repr`lo, repr`key, repr`data
    {
      && repr == old(repr) && entries == old(entries)
      && x in repr && y in repr && y == old(x.left) && y != x
      && head == (if old(head) == x then y else old(head))
      && x.right == old(x.right) && x.left == old(y.right) && x.parent == y
      && y.right == x && y.left == old(y.left) && y.parent == old(x.parent)
      && x.hi == old(x.hi) && x.lo == y.pos + 1 && y.hi == old(x.hi) && y.lo == old(x.lo)
      && unchanged(repr`pos, repr`key, repr`data)
      && forall n {:trigger n in repr} :: n in repr && n != x && n != y ==>
        && n.hi == old(n.hi) && n.lo == old(n.lo)
        && n.right == (if old(n.right) == x then y else old(n.right))
        && n.left == (if old(n.left) == x then y else old(n.left))
        && n.parent == (if n == old(y.right) then x else old(n.parent))
    }

    twostate lemma RotatedRightLinked(x: Node, new y: Node, new n: Node)
      requires old(Shape()) && RotatedRight(x, y) && n in repr
      ensures Linked(n)
    {
      assert old(Linked(x)) && old(Linked(y)) && old(Linked(n));
    }

    twostate lemma RotatedRightShape(x: Node, new y: Node)
      requires old(Shape()) && RotatedRight(x, y)
      ensures Shape()
    {
      forall n | n in repr ensures Linked(n) { RotatedRightLinked(x, y, n); }
      assert old(Linked(x)) && old(head) != null;
    }

    method RightRotate(x: Node)
      requires Shape() && x in repr && x.left != null
      modifies this`head, repr`right, repr`left, repr`parent, repr`hi, repr`lo
      ensures old(x.left) in repr && RotatedRight(x, old(x.left)) && Shape()
    {
      RightChildLinks(x);
      var y := x.left;
      var b := y.right;
      ReplaceChild(x, y);
      y.right := x;
      x.parent := y;
      x.left := b;
      if b != null {
        b.parent := x;
      }
      y.hi, y.lo, x.lo := x.hi, x.lo, y.pos + 1;
      RotatedRightShape(x, y);
    }

    ghost predicate HeightOK(n: Node)
      reads n, n.left, n.right
    {
      Height(n.left) == n.bh && Height(n.right) == n.bh
    }

    ghost predicate EdgeOK(n: Node)
      reads n, n.parent
    {
      n.isBlack || n.parent == null || n.parent.isBlack
    }

    ghost predicate InsertInv(x: Node)
      reads this, repr
    {
      && Shape() && x in repr && !x.isBlack
      && (head.isBlack || head == x)
      && (forall n {:trigger HeightOK(n)} :: n in repr ==> Linked(n) && HeightOK(n))
      && (forall n {:trigger EdgeOK(n)} :: n in repr && n != x ==> Linked(n) && EdgeOK(n))
    }
    ghost predicate RedBlack()
      reads this, repr
    {
      && Shape() && (head != null ==> head.isBlack)
      && (forall n {:trigger HeightOK(n)} :: n in repr ==> Linked(n) && HeightOK(n))
      && (forall n {:trigger EdgeOK(n)} :: n in repr ==> Linked(n) && EdgeOK(n))
    }
    lemma RedFamily(x: Node)
      requires InsertInv(x) && x != head && x.parent != null && !x.parent.isBlack
      ensures x.parent in repr && x.parent != head && x.parent.parent in repr
      ensures var p, g := x.parent, x.parent.parent;
        g != p && g.isBlack && (g.left == p || g.right == p) && (p.left == x || p.right == x)
      ensures x.hi - x.lo < x.parent.parent.hi - x.parent.parent.lo <= |entries|
    {
      assert Linked(x) && Linked(x.parent) && EdgeOK(x.parent);
      assert Linked(x.parent.parent);
    }

    // The red-uncle case: the grandparent takes the red of its two children.
    twostate predicate Recolored(p: Node, new u: Node, new g: Node)
      reads this, repr
    {
      && repr == old(repr) && entries == old(entries) && head == old(head)
      && p in repr && u in repr && g in repr
      && p.isBlack && u.isBlack && !g.isBlack && g.bh == old(g.bh) + 1
      && unchanged(repr`left, repr`right, repr`parent)
      && forall n :: n in repr && n != g ==> n.bh == old(n.bh) && (n != p && n != u ==> n.isBlack == old(n.isBlack))
    }

    twostate lemma RecoloredNode(x: Node, new p: Node, new u: Node, new g: Node, new n: Node)
      requires old(InsertInv(x)) && old(x.parent) == p && old(p.parent) == g &&
        old((g.left == p && g.right == u) || (g.left == u && g.right == p))
      requires old(g.isBlack && !p.isBlack && !u.isBlack && p != u)
      requires Recolored(p, u, g) && n in repr
      ensures HeightOK(n) && (n != g ==> EdgeOK(n))
    {
      assert old(Linked(x)) && old(Linked(p)) && old(Linked(g)) && old(Linked(n)) && old(Linked(u));
      assert old(HeightOK(p)) && old(HeightOK(g)) && old(HeightOK(n)) && old(HeightOK(u));
      assert n != x ==> old(EdgeOK(n));
    }

    twostate lemma RecoloredInv(x: Node, new p: Node, new u: Node, new g: Node)
      requires old(InsertInv(x)) && old(x.parent) == p && old(p.parent) == g &&
        old((g.left == p && g.right == u) || (g.left == u && g.right == p))
      requires old(g.isBlack && !p.isBlack && !u.isBlack && p != u)
      requires Shape() && Recolored(p, u, g)
      ensures InsertInv(g)
    {
      forall n | n in repr ensures HeightOK(n) && (n != g ==> EdgeOK(n)) { RecoloredNode(x, p, u, g, n); }
    }

    method RecolorFamily(x: Node, p: Node, u: Node, g: Node)
      requires InsertInv(x) && x.parent == p && p.parent == g &&
        ((g.left == p && g.right == u) || (g.left == u && g.right == p))
      requires g.isBlack && !p.isBlack && !u.isBlack && p != u
      modifies repr`isBlack, repr`bh
      ensures InsertInv(g)
    {
      assert Linked(x) && Linked(p) && Linked(g);
      g.isBlack := false;
      u.isBlack := true;
      p.isBlack := true;
      g.bh := g.bh + 1;
      assert Recolored(p, u, g);
      RecoloredInv(x, p, u, g);
    }

    // The far case of the insertion repair: g turned red, p black, and g rotated below p.
    twostate predicate LeftTopRecolored(g: Node, new p: Node)
      reads this, repr
    {
      && RotatedRight(g, p) && !g.isBlack && p.isBlack
      && unchanged(repr`bh)
      && forall n :: n in repr && n != g && n != p ==> n.isBlack == old(n.isBlack)
    }

    twostate lemma InsertOuterLeftNode(x: Node, new p: Node, new g: Node, new n: Node)
      requires old(InsertInv(x)) &&
        old(p == x.parent && g == p.parent && p.left == x && g.left == p && !p.isBlack && g.isBlack && !IsRed(g.right))
      requires LeftTopRecolored(g, p) && n in repr
      ensures HeightOK(n) && EdgeOK(n)
    {
      assert old(Linked(x)) && old(Linked(p)) && old(Linked(g)) && old(Linked(n));
      assert old(HeightOK(p)) && old(HeightOK(g)) && old(HeightOK(n));
      assert n != x ==> old(EdgeOK(n));
    }

    // Rotating a red node below its red right child moves the red pair to the outside.
    twostate lemma InsertInnerLeftNode(x: Node, new p: Node, new n: Node)
      requires p == old(x.parent) && old(InsertInv(x)) && old(p.right == x && !p.isBlack && p != head)
      requires RotatedLeft(p, x) && unchanged(repr`bh, repr`isBlack) && n in repr
      ensures HeightOK(n) && (n != p ==> EdgeOK(n))
    {
      assert old(Linked(x)) && old(Linked(p)) && old(Linked(n));
      assert old(HeightOK(x)) && old(HeightOK(p)) && old(HeightOK(n)) && old(EdgeOK(p));
      assert n != x ==> old(EdgeOK(n));
    }

    twostate lemma InsertInnerLeft(x: Node, new p: Node)
      requires p == old(x.parent) && old(InsertInv(x)) && old(p.right == x && !p.isBlack && p != head)
      requires RotatedLeft(p, x) && unchanged(repr`bh, repr`isBlack)
      ensures InsertInv(p)
    {
      RotatedLeftShape(p, x);
      assert old(Linked(x)) && old(Linked(p));
      forall n | n in repr ensures HeightOK(n) && (n != p ==> EdgeOK(n)) { InsertInnerLeftNode(x, p, n); }
    }

    twostate lemma InsertOuterLeft(x: Node, new p: Node, new g: Node)
      requires p == old(x.parent) && g == old(p.parent)
      requires old(InsertInv(x)) && old(p.left == x && g.left == p && !p.isBlack && g.isBlack && !IsRed(g.right))
      requires LeftTopRecolored(g, p)
      ensures InsertInv(x) && x.parent == p
    {
      RotatedRightShape(g, p);
      forall n | n in repr ensures HeightOK(n) && EdgeOK(n) { InsertOuterLeftNode(x, p, g, n); }
      assert old(Linked(x)) && old(Linked(p)) && old(Linked(g));
    }

    // The parent of x is a left child and the uncle is not red.
    method InsertFixLeft(x: Node) returns (x': Node)
      requires InsertInv(x) && x != head && x.parent != null && !x.parent.isBlack && x.parent.parent != null
      requires x.parent == x.parent.parent.left && !IsRed(x.parent.parent.right)
      modifies this`head, repr`left, repr`right, repr`parent, repr`lo, repr`hi, repr`isBlack
      ensures InsertInv(x') && x'.parent != null && x'.parent.isBlack
    {
      RedFamily(x);
      var g := x.parent.parent;
      x' := x;
      assert Linked(x) && Linked(x.parent) && Linked(g);
      if x' == x'.parent.right {
        x' := x'.parent;
        LeftRotate(x');
        InsertInnerLeft(x, x');
      }
      InsertRotateLeft(x', x'.parent, g);
    }

    method InsertRotateLeft(x: Node, p: Node, g: Node)
      requires InsertInv(x) && p == x.parent && g == p.parent && p.left == x && g.left == p && !p.isBlack &&
        g.isBlack && !IsRed(g.right)
      modifies this`head, repr`left, repr`right, repr`parent, repr`lo, repr`hi, repr`isBlack
      ensures InsertInv(x) && x.parent == p && p.isBlack
    {
      assert Linked(x) && Linked(p);
      g.isBlack := false;
      p.isBlack := true;
      RightRotate(g);
      assert LeftTopRecolored(g, p);
      InsertOuterLeft(x, p, g);
    }

    // The far case of the insertion repair: g turned red, p black, and g rotated below p.
    twostate predicate RightTopRecolored(g: Node, new p: Node)
      reads this, repr
    {
      && RotatedLeft(g, p) && !g.isBlack && p.isBlack
      && unchanged(repr`bh)
      && forall n :: n in repr && n != g && n != p ==> n.isBlack == old(n.isBlack)
    }

    twostate lemma InsertOuterRightNode(x: Node, new p: Node, new g: Node, new n: Node)
      requires old(InsertInv(x)) &&
        old(p == x.parent && g == p.parent && p.right == x && g.right == p && !p.isBlack && g.isBlack && !IsRed(g.left))
      requires RightTopRecolored(g, p) && n in repr
      ensures HeightOK(n) && EdgeOK(n)
    {
      assert old(Linked(x)) && old(Linked(p)) && old(Linked(g)) && old(Linked(n));
      assert old(HeightOK(p)) && old(HeightOK(g)) && old(HeightOK(n));
      assert n != x ==> old(EdgeOK(n));
    }

    // Rotating a red node below its red left child moves the red pair to the outside.
    twostate lemma InsertInnerRightNode(x: Node, new p: Node, new n: Node)
      requires p == old(x.parent) && old(InsertInv(x)) && old(p.left == x && !p.isBlack && p != head)
      requires RotatedRight(p, x) && unchanged(repr`bh, repr`isBlack) && n in repr
      ensures HeightOK(n) && (n != p ==> EdgeOK(n))
    {
      assert old(Linked(x)) && old(Linked(p)) && old(Linked(n));
      assert old(HeightOK(x)) && old(HeightOK(p)) && old(HeightOK(n)) && old(EdgeOK(p));
      assert n != x ==> old(EdgeOK(n));
    }

    twostate lemma InsertInnerRight(x: Node, new p: Node)
      requires p == old(x.parent) && old(InsertInv(x)) && old(p.left == x && !p.isBlack && p != head)
      requires RotatedRight(p, x) && unchanged(repr`bh, repr`isBlack)
      ensures InsertInv(p)
    {
      RotatedRightShape(p, x);
      assert old(Linked(x)) && old(Linked(p));
      forall n | n in repr ensures HeightOK(n) && (n != p ==> EdgeOK(n)) { InsertInnerRightNode(x, p, n); }
    }

    twostate lemma InsertOuterRight(x: Node, new p: Node, new g: Node)
      requires p == old(x.parent) && g == old(p.parent)
      requires old(InsertInv(x)) && old(p.right == x && g.right == p && !p.isBlack && g.isBlack && !IsRed(g.left))
      requires RightTopRecolored(g, p)
      ensures InsertInv(x) && x.parent == p
    {
      RotatedLeftShape(g, p);
      forall n | n in repr ensures HeightOK(n) && EdgeOK(n) { InsertOuterRightNode(x, p, g, n); }
      assert old(Linked(x)) && old(Linked(p)) && old(Linked(g));
    }

    // The parent of x is a right child and the uncle is not red.
    method InsertFixRight(x: Node) returns (x': Node)
      requires InsertInv(x) && x != head && x.parent != null && !x.parent.isBlack && x.parent.parent != null
      requires x.parent == x.parent.parent.right && !IsRed(x.parent.parent.left)
      modifies this`head, repr`right, repr`left, repr`parent, repr`hi, repr`lo, repr`isBlack
      ensures InsertInv(x') && x'.parent != null && x'.parent.isBlack
    {
      RedFamily(x);
      var g := x.parent.parent;
      x' := x;
      assert Linked(x) && Linked(x.parent) && Linked(g);
      if x' == x'.parent.left {
        x' := x'.parent;
        RightRotate(x');
        InsertInnerRight(x, x');
      }
      InsertRotateRight(x', x'.parent, g);
    }

    method InsertRotateRight(x: Node, p: Node, g: Node)
      requires InsertInv(x) && p == x.parent && g == p.parent && p.right == x && g.right == p && !p.isBlack &&
        g.isBlack && !IsRed(g.left)
      modifies this`head, repr`right, repr`left, repr`parent, repr`hi, repr`lo, repr`isBlack
      ensures InsertInv(x) && x.parent == p && p.isBlack
    {
      assert Linked(x) && Linked(p);
      g.isBlack := false;
      p.isBlack := true;
      LeftRotate(g);
      assert RightTopRecolored(g, p);
      InsertOuterRight(x, p, g);
    }

    // Blackening the head alone: legal because no path skips the head.
    twostate lemma HeadBlackened(new x: Node?)
      requires old(Shape()) && repr == old(repr) && entries == old(entries) && head == old(head) && Shape()
      requires unchanged(repr`left, repr`right, repr`parent, repr`bh)
      requires head != null ==> head.isBlack
      requires forall n :: n in repr && n != head ==> n.isBlack == old(n.isBlack)
      requires forall n {:trigger old(HeightOK(n))} :: n in repr ==> old(Linked(n)) && old(HeightOK(n))
      requires forall n {:trigger old(EdgeOK(n))} :: n in repr && n != x ==> old(Linked(n)) && old(EdgeOK(n))
      requires x != null ==> x in repr && (old(x.isBlack) || x == head || old(x.parent != null && x.parent.isBlack))
      ensures RedBlack()
    {
      forall n | n in repr ensures Linked(n) && HeightOK(n) && EdgeOK(n) {
        assert Linked(n);
        assert old(Linked(n)) && old(HeightOK(n));
        assert n != x ==> old(EdgeOK(n));
      }
    }

    // A fresh red node x may have a red parent: recolour upwards until a rotation settles it.
    method InsertBalancing(x0: Node)
      requires InsertInv(x0)
      modifies this`head, repr`left, repr`right, repr`parent, repr`lo, repr`hi, repr`isBlack, repr`bh
      ensures RedBlack()
    {
      var x: Node := x0;
      assert Linked(x);
      while x != head && !x.parent.isBlack
        invariant InsertInv(x)
        invariant x != head ==> x.parent != null
        decreases if x != head && !x.parent.isBlack then 1 + |entries| - (x.hi - x.lo) else 0
      {
        RedFamily(x);
        var g := x.parent.parent;
        var u := if x.parent == g.left then g.right else g.left;
        assert Linked(g);
        if u != null && !u.isBlack {
          RecolorFamily(x, x.parent, u, g);
          x := g;
        } else if x.parent == g.left {
          x := InsertFixLeft(x);
        } else {
          x := InsertFixRight(x);
        }
        assert Linked(x);
      }
      label L:
      head.isBlack := true;
      HeadBlackened@L(x);
    }

    // x carries an extra black below p: paths through x are one black short of p's other side.
    ghost predicate Deficient(p: Node, x: Node?)
      reads p, p.left, p.right, x
    {
      if p.left == x then Height(p.right) == p.bh && Height(x) + 1 == p.bh
      else p.right == x && Height(p.left) == p.bh && Height(x) + 1 == p.bh
    }

    ghost predicate DeleteInv(x: Node?, p: Node?)
      reads this, repr, p, x
    {
      && Shape()
      && (p == null <==> x == head)
      && (head != null && head != x ==> head.isBlack)
      && (x != null ==> x in repr && x.parent == p)
      && (p != null ==> p in repr && Linked(p) && Deficient(p, x))
      && (forall n {:trigger HeightOK(n)} :: n in repr && n != p ==> Linked(n) && HeightOK(n))
      && (forall n {:trigger EdgeOK(n)} :: n in repr && (IsRed(x) ==> n != x && n.parent != x) ==>
        Linked(n) && EdgeOK(n))
    }

    // The source tests for a missing sibling; a deficient side always has one.
    lemma SiblingExists(x: Node?, p: Node)
      requires DeleteInv(x, p) && !IsRed(x)
      ensures if p.left == x then p.right != null && p.right in repr else p.left != null && p.left in repr
      ensures p.left == x ==> p.right != x && (!p.right.isBlack ==> p.right.left != null && p.right.left.isBlack)
      ensures p.left != x ==> p.right == x && (!p.left.isBlack ==> p.left.right != null && p.left.right.isBlack)
    {
      assert Linked(p);
      assert p.left != null ==> Linked(p.left);
      assert p.right != null ==> Linked(p.right);
      if p.left == x && !p.right.isBlack {
        assert HeightOK(p.right) && Linked(p.right);
        assert EdgeOK(p.right.left);
      }
      if p.left != x && !p.left.isBlack {
        assert HeightOK(p.left) && Linked(p.left);
        assert EdgeOK(p.left.right);
      }
    }

    // Red sibling: s is lifted above p, so that the sibling of x becomes black.
    twostate predicate SiblingLiftedLeft(p: Node, new s: Node)
      reads this, repr
    {
      && RotatedLeft(p, s) && s.isBlack && !p.isBlack && unchanged(repr`bh)
      && forall n :: n in repr && n != s && n != p ==> n.isBlack == old(n.isBlack)
    }

    twostate lemma SiblingLiftedLeftNode(p: Node, new x: Node?, new s: Node, new n: Node)
      requires x == old(p.left) && s == old(p.right) && old(DeleteInv(x, p)) && old(!s.isBlack && !IsRed(x)) && x != s
      requires SiblingLiftedLeft(p, s) && n in repr
      ensures (n != p ==> HeightOK(n)) && EdgeOK(n)
    {
      assert old(Linked(p)) && old(Linked(s)) && old(Linked(n));
      assert old(HeightOK(s)) && old(EdgeOK(s));
      assert n != p ==> old(HeightOK(n));
      assert old(EdgeOK(n));
    }

    twostate lemma SiblingLiftedLeftInv(p: Node, new x: Node?, new s: Node)
      requires x == old(p.left) && s == old(p.right) && old(DeleteInv(x, p)) && old(!s.isBlack && !IsRed(x)) && x != s
      requires SiblingLiftedLeft(p, s)
      ensures DeleteInv(x, p)
    {
      assert old(Linked(p)) && old(Linked(s)) && old(HeightOK(s));
      assert x != null ==> old(Linked(x));
      RotatedLeftShape(p, s);
      forall n | n in repr ensures (n != p ==> HeightOK(n)) && EdgeOK(n) { SiblingLiftedLeftNode(p, x, s, n); }
    }

    method LiftSiblingLeft(x: Node?, p: Node)
      requires DeleteInv(x, p) && p.left == x && p.right != null && p.right != x && !p.right.isBlack &&
        (x == null || x.isBlack)
      modifies this`head, repr`left, repr`right, repr`parent, repr`lo, repr`hi, repr`isBlack
      ensures DeleteInv(x, p) && p.left == x && p.right == old(p.right.left)
      ensures x != null ==> x.hi == old(x.hi) && x.lo == old(x.lo)
      ensures forall n :: n in repr && n != p && n != old(p.right) ==> n.isBlack == old(n.isBlack)
    {
      assert Linked(p) && Linked(p.right);
      var s := p.right;
      s.isBlack := true;
      p.isBlack := false;
      LeftRotate(p);
      assert SiblingLiftedLeft(p, s);
      SiblingLiftedLeftInv(p, x, s);
    }

    // Red sibling: s is lifted above p, so that the sibling of x becomes black.
    twostate predicate SiblingLiftedRight(p: Node, new s: Node)
      reads this, repr
    {
      && RotatedRight(p, s) && s.isBlack && !p.isBlack && unchanged(repr`bh)
      && forall n :: n in repr && n != s && n != p ==> n.isBlack == old(n.isBlack)
    }

    twostate lemma SiblingLiftedRightNode(p: Node, new x: Node?, new s: Node, new n: Node)
      requires x == old(p.right) && s == old(p.left) && old(DeleteInv(x, p)) && old(!s.isBlack && !IsRed(x)) && x != s
      requires SiblingLiftedRight(p, s) && n in repr
      ensures (n != p ==> HeightOK(n)) && EdgeOK(n)
    {
      assert old(Linked(p)) && old(Linked(s)) && old(Linked(n));
      assert old(HeightOK(s)) && old(EdgeOK(s));
      assert n != p ==> old(HeightOK(n));
      assert old(EdgeOK(n));
    }

    twostate lemma SiblingLiftedRightInv(p: Node, new x: Node?, new s: Node)
      requires x == old(p.right) && s == old(p.left) && old(DeleteInv(x, p)) && old(!s.isBlack && !IsRed(x)) && x != s
      requires SiblingLiftedRight(p, s)
      ensures DeleteInv(x, p)
    {
      assert old(Linked(p)) && old(Linked(s)) && old(HeightOK(s));
      assert x != null ==> old(Linked(x));
      RotatedRightShape(p, s);
      forall n | n in repr ensures (n != p ==> HeightOK(n)) && EdgeOK(n) { SiblingLiftedRightNode(p, x, s, n); }
    }

    method LiftSiblingRight(x: Node?, p: Node)
      requires DeleteInv(x, p) && p.right == x && p.left != null && p.left != x && !p.left.isBlack &&
        (x == null || x.isBlack)
      modifies this`head, repr`right, repr`left, repr`parent, repr`hi, repr`lo, repr`isBlack
      ensures DeleteInv(x, p) && p.right == x && p.left == old(p.left.right)
      ensures x != null ==> x.lo == old(x.lo) && x.hi == old(x.hi)
      ensures forall n :: n in repr && n != p && n != old(p.left) ==> n.isBlack == old(n.isBlack)
    {
      assert Linked(p) && Linked(p.left);
      var s := p.left;
      s.isBlack := true;
      p.isBlack := false;
      RightRotate(p);
      assert SiblingLiftedRight(p, s);
      SiblingLiftedRightInv(p, x, s);
    }

    // Black sibling with no red child: the missing black moves up to p.
    twostate predicate SiblingReddened(p: Node, new s: Node)
      reads this, repr
    {
      && repr == old(repr) && entries == old(entries) && head == old(head) && p in repr && s in repr
      && unchanged(repr`left, repr`right, repr`parent)
      && !s.isBlack && old(p.bh) > 0 && p.bh == old(p.bh) - 1
      && unchanged((repr - {s})`isBlack, (repr - {p})`bh)
    }

    twostate lemma SiblingReddenedNode(p: Node, new x: Node?, new s: Node, new n: Node)
      requires old((p.left == x && p.right == s) || (p.left == s && p.right == x)) && x != s && old(DeleteInv(x, p))
      requires old(s.isBlack && !IsRed(s.left) && !IsRed(s.right) && !IsRed(x))
      requires SiblingReddened(p, s) && n in repr
      ensures (n != p.parent ==> HeightOK(n)) && (n != p && n.parent != p ==> EdgeOK(n))
      ensures n == p.parent ==> Deficient(n, p)
    {
      assert old(Linked(p)) && old(Linked(s)) && old(Linked(n));
      assert n != p ==> old(HeightOK(n));
      assert old(EdgeOK(n));
    }

    twostate lemma SiblingReddenedInv(p: Node, new x: Node?, new s: Node)
      requires old((p.left == x && p.right == s) || (p.left == s && p.right == x)) && x != s && old(DeleteInv(x, p))
      requires old(s.isBlack && !IsRed(s.left) && !IsRed(s.right) && !IsRed(x))
      requires SiblingReddened(p, s) && Shape()
      ensures DeleteInv(p, p.parent)
    {
      hide HeightOK;
      assert Linked(p);
      forall n | n in repr
        ensures (n != p.parent ==> HeightOK(n)) && (n != p && n.parent != p ==> EdgeOK(n)) &&
        (n == p.parent ==> Deficient(n, p)) {
        SiblingReddenedNode(p, x, s, n);
      }
      assert p.parent != null ==> Linked(p.parent);
    }

    method ReddenSibling(x: Node?, p: Node, s: Node)
      requires DeleteInv(x, p) && ((p.left == x && p.right == s) || (p.left == s && p.right == x)) && x != s
      requires s.isBlack && !IsRed(s.left) && !IsRed(s.right) && !IsRed(x)
      modifies repr`isBlack, repr`bh
      ensures DeleteInv(p, p.parent)
    {
      assert Linked(p);
      s.isBlack := false;
      p.bh := p.bh - 1;
      assert SiblingReddened(p, s);
      SiblingReddenedInv(p, x, s);
    }

    // Black sibling whose far child is not red: its red near child c is lifted above it.
    twostate predicate NephewLiftedLeft(s: Node, new c: Node)
      reads this, repr
    {
      && RotatedRight(s, c) && c.isBlack && !s.isBlack && unchanged(repr`bh)
      && forall n :: n in repr && n != s && n != c ==> n.isBlack == old(n.isBlack)
    }

    twostate lemma NephewLiftedLeftNode(p: Node, new x: Node?, new s: Node, new c: Node, new n: Node)
      requires x == old(p.left) && s == old(p.right) && c == old(s.left) && old(DeleteInv(x, p)) && x != s
      requires old(s.isBlack && !c.isBlack && !IsRed(s.right) && !IsRed(x))
      requires NephewLiftedLeft(s, c) && n in repr
      ensures (n != p ==> HeightOK(n)) && EdgeOK(n)
    {
      assert old(Linked(p)) && old(Linked(s)) && old(Linked(c)) && old(Linked(n));
      assert old(HeightOK(s)) && old(HeightOK(c));
      assert n != p ==> old(HeightOK(n));
      assert old(EdgeOK(n));
    }

    twostate lemma NephewLiftedLeftInv(p: Node, new x: Node?, new s: Node, new c: Node)
      requires x == old(p.left) && s == old(p.right) && c == old(s.left) && old(DeleteInv(x, p)) && x != s
      requires old(s.isBlack && !c.isBlack && !IsRed(s.right) && !IsRed(x))
      requires NephewLiftedLeft(s, c)
      ensures DeleteInv(x, p) && p.left == x && p.right == c && c.right == s
    {
      assert old(Linked(p)) && old(Linked(s)) && old(Linked(c)) && old(HeightOK(s)) && old(HeightOK(c));
      assert x != null ==> old(Linked(x));
      RotatedRightShape(s, c);
      forall n | n in repr ensures (n != p ==> HeightOK(n)) && EdgeOK(n) { NephewLiftedLeftNode(p, x, s, c, n); }
    }

    method LiftNephewLeft(x: Node?, p: Node, s: Node)
      requires DeleteInv(x, p) && p.left == x && p.right == s && s != x && s.isBlack && IsRed(s.left) &&
        !IsRed(s.right) && !IsRed(x)
      modifies this`head, repr`left, repr`right, repr`parent, repr`lo, repr`hi, repr`isBlack
      ensures DeleteInv(x, p) && p.left == x && p.right == old(s.left) && p.right != null && p.right != x &&
        p.right.isBlack && IsRed(p.right.right)
      ensures x != null ==> x.isBlack
    {
      assert Linked(p) && Linked(s);
      var c := s.left;
      if s.left != null {
        s.left.isBlack := true;
      }
      s.isBlack := false;
      RightRotate(s);
      assert NephewLiftedLeft(s, c);
      NephewLiftedLeftInv(p, x, s, c);
      assert x != null ==> old(Linked(x));
    }

    // Black sibling whose far child is not red: its red near child c is lifted above it.
    twostate predicate NephewLiftedRight(s: Node, new c: Node)
      reads this, repr
    {
      && RotatedLeft(s, c) && c.isBlack && !s.isBlack && unchanged(repr`bh)
      && forall n :: n in repr && n != s && n != c ==> n.isBlack == old(n.isBlack)
    }

    twostate lemma NephewLiftedRightNode(p: Node, new x: Node?, new s: Node, new c: Node, new n: Node)
      requires x == old(p.right) && s == old(p.left) && c == old(s.right) && old(DeleteInv(x, p)) && x != s
      requires old(s.isBlack && !c.isBlack && !IsRed(s.left) && !IsRed(x))
      requires NephewLiftedRight(s, c) && n in repr
      ensures (n != p ==> HeightOK(n)) && EdgeOK(n)
    {
      assert old(Linked(p)) && old(Linked(s)) && old(Linked(c)) && old(Linked(n));
      assert old(HeightOK(s)) && old(HeightOK(c));
      assert n != p ==> old(HeightOK(n));
      assert old(EdgeOK(n));
    }

    twostate lemma NephewLiftedRightInv(p: Node, new x: Node?, new s: Node, new c: Node)
      requires x == old(p.right) && s == old(p.left) && c == old(s.right) && old(DeleteInv(x, p)) && x != s
      requires old(s.isBlack && !c.isBlack && !IsRed(s.left) && !IsRed(x))
      requires NephewLiftedRight(s, c)
      ensures DeleteInv(x, p) && p.right == x && p.left == c && c.left == s
    {
      assert old(Linked(p)) && old(Linked(s)) && old(Linked(c)) && old(HeightOK(s)) && old(HeightOK(c));
      assert x != null ==> old(Linked(x));
      RotatedLeftShape(s, c);
      forall n | n in repr ensures (n != p ==> HeightOK(n)) && EdgeOK(n) { NephewLiftedRightNode(p, x, s, c, n); }
    }

    method LiftNephewRight(x: Node?, p: Node, s: Node)
      requires DeleteInv(x, p) && p.right == x && p.left == s && s != x && s.isBlack && IsRed(s.right) &&
        !IsRed(s.left) && !IsRed(x)
      modifies this`head, repr`right, repr`left, repr`parent, repr`hi, repr`lo, repr`isBlack
      ensures DeleteInv(x, p) && p.right == x && p.left == old(s.right) && p.left != null && p.left != x &&
        p.left.isBlack && IsRed(p.left.left)
      ensures x != null ==> x.isBlack
    {
      assert Linked(p) && Linked(s);
      var c := s.right;
      if s.right != null {
        s.right.isBlack := true;
      }
      s.isBlack := false;
      LeftRotate(s);
      assert NephewLiftedRight(s, c);
      NephewLiftedRightInv(p, x, s, c);
      assert x != null ==> old(Linked(x));
    }

    // Black sibling with a red far child f: one rotation restores the missing black.
    twostate predicate SiblingRaisedLeft(p: Node, new s: Node, new f: Node)
      reads this, repr
    {
      && RotatedLeft(p, s) && f == old(s.right) && f in repr
      && s.isBlack == old(p.isBlack) && p.isBlack && f.isBlack
      && old(p.bh) > 0 && p.bh == old(p.bh) - 1 && s.bh == old(p.bh)
      && unchanged((repr - {s, p, f})`isBlack, (repr - {s, p})`bh)
    }

    twostate lemma SiblingRaisedLeftNode(p: Node, new x: Node?, new s: Node, new f: Node, new n: Node)
      requires x == old(p.left) && s == old(p.right) && f == old(s.right) && old(DeleteInv(x, p)) && x != s
      requires old(s.isBlack && !f.isBlack && !IsRed(x))
      requires SiblingRaisedLeft(p, s, f) && n in repr
      ensures HeightOK(n) && EdgeOK(n)
    {
      assert old(Linked(p)) && old(Linked(s)) && old(Linked(f)) && old(Linked(n));
      assert old(HeightOK(s)) && old(HeightOK(f)) && old(EdgeOK(p));
      assert n != p ==> old(HeightOK(n));
      assert old(EdgeOK(n));
    }

    twostate lemma SiblingRaisedLeftInv(p: Node, new x: Node?, new s: Node, new f: Node)
      requires x == old(p.left) && s == old(p.right) && f == old(s.right) && old(DeleteInv(x, p)) && x != s
      requires old(s.isBlack && !f.isBlack && !IsRed(x))
      requires SiblingRaisedLeft(p, s, f)
      ensures RedBlack()
    {
      assert old(Linked(p)) && old(Linked(s));
      RotatedLeftShape(p, s);
      forall n | n in repr ensures HeightOK(n) && EdgeOK(n) { SiblingRaisedLeftNode(p, x, s, f, n); }
    }

    method RaiseSiblingLeft(x: Node?, p: Node, s: Node)
      requires DeleteInv(x, p) && p.left == x && p.right == s && s != x && s.isBlack && IsRed(s.right) && !IsRed(x)
      modifies this`head, repr`left, repr`right, repr`parent, repr`lo, repr`hi, repr`isBlack, repr`bh
      ensures RedBlack()
    {
      assert Linked(p) && Linked(s) && HeightOK(s);
      ghost var f := s.right;
      assert Linked(f);
      RecolorForRaise(p, s, s.right);
      LeftRotate(p);
      assert SiblingRaisedLeft(p, s, f);
      SiblingRaisedLeftInv(p, x, s, f);
    }

    // Black sibling with a red far child f: one rotation restores the missing black.
    twostate predicate SiblingRaisedRight(p: Node, new s: Node, new f: Node)
      reads this, repr
    {
      && RotatedRight(p, s) && f == old(s.left) && f in repr
      && s.isBlack == old(p.isBlack) && p.isBlack && f.isBlack
      && old(p.bh) > 0 && p.bh == old(p.bh) - 1 && s.bh == old(p.bh)
      && unchanged((repr - {s, p, f})`isBlack, (repr - {s, p})`bh)
    }

    twostate lemma SiblingRaisedRightNode(p: Node, new x: Node?, new s: Node, new f: Node, new n: Node)
      requires x == old(p.right) && s == old(p.left) && f == old(s.left) && old(DeleteInv(x, p)) && x != s
      requires old(s.isBlack && !f.isBlack && !IsRed(x))
      requires SiblingRaisedRight(p, s, f) && n in repr
      ensures HeightOK(n) && EdgeOK(n)
    {
      assert old(Linked(p)) && old(Linked(s)) && old(Linked(f)) && old(Linked(n));
      assert old(HeightOK(s)) && old(HeightOK(f)) && old(EdgeOK(p));
      assert n != p ==> old(HeightOK(n));
      assert old(EdgeOK(n));
    }

    twostate lemma SiblingRaisedRightInv(p: Node, new x: Node?, new s: Node, new f: Node)
      requires x == old(p.right) && s == old(p.left) && f == old(s.left) && old(DeleteInv(x, p)) && x != s
      requires old(s.isBlack && !f.isBlack && !IsRed(x))
      requires SiblingRaisedRight(p, s, f)
      ensures RedBlack()
    {
      assert old(Linked(p)) && old(Linked(s));
      RotatedRightShape(p, s);
      forall n | n in repr ensures HeightOK(n) && EdgeOK(n) { SiblingRaisedRightNode(p, x, s, f, n); }
    }

    method RaiseSiblingRight(x: Node?, p: Node, s: Node)
      requires DeleteInv(x, p) && p.right == x && p.left == s && s != x && s.isBlack && IsRed(s.left) && !IsRed(x)
      modifies this`head, repr`right, repr`left, repr`parent, repr`hi, repr`lo, repr`isBlack, repr`bh
      ensures RedBlack()
    {
      assert Linked(p) && Linked(s) && HeightOK(s);
      ghost var f := s.left;
      assert Linked(f);
      RecolorForRaise(p, s, s.left);
      RightRotate(p);
      assert SiblingRaisedRight(p, s, f);
      SiblingRaisedRightInv(p, x, s, f);
    }

    method SettleLeft(x: Node?, p: Node, s0: Node)
      requires DeleteInv(x, p) && p.left == x && p.right == s0 && s0 != x && s0.isBlack &&
        (IsRed(s0.left) || IsRed(s0.right)) && !IsRed(x)
      modifies this`head, repr`left, repr`right, repr`parent, repr`lo, repr`hi, repr`isBlack, repr`bh
      ensures RedBlack() && head != null
    {
      var s := s0;
      if s.right == null || s.right.isBlack {
        LiftNephewLeft(x, p, s);
        s := p.right;
      }
      RaiseSiblingLeft(x, p, s);
    }

    // One pass of the deletion loop when x is the left child of p.
    method DeleteFixLeft(x: Node?, p: Node) returns (x': Node?)
      requires DeleteInv(x, p) && p.left == x && x != head && (x == null || x.isBlack)
      modifies this`head, repr`left, repr`right, repr`parent, repr`lo, repr`hi, repr`isBlack, repr`bh
      ensures x' != null && DeleteInv(x', x'.parent)
      ensures x' == head || (x' == p && old(Width(x)) < Width(x'))
    {
      SiblingExists(x, p);
      var s := p.right;
      if !s.isBlack {
        LiftSiblingLeft(x, p);
        s := p.right;
      }
      SiblingExists(x, p);
      assert Linked(p) && Linked(s) && (x != null ==> Linked(x));
      if (s.left == null || s.left.isBlack) && (s.right == null || s.right.isBlack) {
        ReddenSibling(x, p, s);
        x' := p;
      } else {
        SettleLeft(x, p, s);
        x' := head;
        HeadSettled();
      }
    }

    method SettleRight(x: Node?, p: Node, s0: Node)
      requires DeleteInv(x, p) && p.left != x && p.left == s0 && s0 != x && s0.isBlack &&
        (IsRed(s0.right) || IsRed(s0.left)) && !IsRed(x)
      modifies this`head, repr`right, repr`left, repr`parent, repr`hi, repr`lo, repr`isBlack, repr`bh
      ensures RedBlack() && head != null
    {
      var s := s0;
      if s.left == null || s.left.isBlack {
        LiftNephewRight(x, p, s);
        s := p.left;
      }
      RaiseSiblingRight(x, p, s);
    }

    // One pass of the deletion loop when x is the right child of p.
    method DeleteFixRight(x: Node?, p: Node) returns (x': Node?)
      requires DeleteInv(x, p) && p.left != x && x != head && (x == null || x.isBlack)
      modifies this`head, repr`right, repr`left, repr`parent, repr`hi, repr`lo, repr`isBlack, repr`bh
      ensures x' != null && DeleteInv(x', x'.parent)
      ensures x' == head || (x' == p && old(Width(x)) < Width(x'))
    {
      SiblingExists(x, p);
      var s := p.left;
      if !s.isBlack {
        LiftSiblingRight(x, p);
        s := p.left;
      }
      SiblingExists(x, p);
      assert Linked(p) && Linked(s) && (x != null ==> Linked(x));
      if (s.right == null || s.right.isBlack) && (s.left == null || s.left.isBlack) {
        ReddenSibling(x, p, s);
        x' := p;
      } else {
        SettleRight(x, p, s);
        x' := head;
        HeadSettled();
      }
    }

    // The sibling takes p's colour, p and the far child f turn black.
    method RecolorForRaise(p: Node, s: Node, f: Node?)
      requires p in repr && s in repr && p.bh > 0 && p != s
      modifies {p, s}`isBlack, (if f == null then {} else {f})`isBlack, p`bh, s`bh
      ensures p.isBlack && (f == null || f.isBlack) && (s != f ==> s.isBlack == old(p.isBlack))
      ensures s.bh == old(p.bh) && p.bh == old(p.bh) - 1
    {
      s.isBlack := p.isBlack;
      p.isBlack := true;
      if f != null {
        f.isBlack := true;
      }
      s.bh, p.bh := p.bh, p.bh - 1;
    }

    lemma HeadSettled()
      requires RedBlack()
      ensures DeleteInv(head, null) && (head != null ==> head.parent == null)
    {
      assert head != null ==> Linked(head);
    }

    twostate lemma ExtraBlackAbsorbed(x: Node, new p: Node?)
      requires old(allocated(p)) && old(DeleteInv(x, p)) && (x == head || old(!x.isBlack))
      requires repr == old(repr) && entries == old(entries) && head == old(head) && Shape()
      requires unchanged(repr`left, repr`right, repr`parent, repr`bh) && x.isBlack
      requires forall n :: n in repr && n != x ==> n.isBlack == old(n.isBlack)
      ensures RedBlack()
    {
      forall n | n in repr ensures Linked(n) && HeightOK(n) && EdgeOK(n) {
        assert Linked(n);
        assert old(Linked(n)) && (n != p ==> old(HeightOK(n)));
        assert old((IsRed(x) ==> n != x && n.parent != x) ==> EdgeOK(n));
      }
    }

    // x (possibly null) hangs below p and carries an extra black: push it up or absorb it.
    method DeleteBalancing(x0: Node?, p0: Node?)
      requires DeleteInv(x0, p0)
      modifies this`head, repr`left, repr`right, repr`parent, repr`lo, repr`hi, repr`isBlack, repr`bh
      ensures RedBlack()
    {
      var x, p := x0, p0;
      while x != head && (x == null || x.isBlack)
        invariant DeleteInv(x, p)
        decreases if x == head then 0 else 1 + |entries| - Width(x)
      {
        assert Linked(p);
        assert x != null ==> Linked(x);
        if x == p.left {
          x := DeleteFixLeft(x, p);
        } else {
          x := DeleteFixRight(x, p);
        }
        p := x.parent;
        assert Linked(x);
      }
      if x != null {
        label L:
        x.isBlack := true;
        ExtraBlackAbsorbed@L(x, p);
      }
    }

    // The node that descending from a towards position i reaches.
    ghost function At(a: Node, i: int): (r: Node)
      requires Shape() && a in repr && a.lo <= i < a.hi
      reads this`head, this`repr, this`entries
      reads repr`left, repr`right, repr`parent, repr`lo, repr`pos, repr`hi, repr`key, repr`data
      ensures r in repr && r.pos == i
      decreases a.hi - a.lo
    {
      assert Linked(a);
      assert a.left != null ==> Linked(a.left);
      assert a.right != null ==> Linked(a.right);
      if i == a.pos then a else if i < a.pos then At(a.left, i) else At(a.right, i)
    }

    lemma {:induction false} AtFromHead(a: Node, i: int)
      requires Shape() && a in repr && a.lo <= i < a.hi
      ensures head != null && 0 <= i < |entries| && At(head, i) == At(a, i)
      decreases |entries| - (a.hi - a.lo)
    {
      assert Linked(a);
      if a.parent != null {
        assert Linked(a.parent);
        AtFromHead(a.parent, i);
      }
    }

    // Nodes and entries correspond one to one: each position belongs to exactly one node.
    lemma NodesMatchEntries()
      requires Shape()
      ensures forall z, m :: z in repr && m in repr && z.pos == m.pos ==> z == m
      ensures forall i :: 0 <= i < |entries| ==> exists n :: n in repr && n.pos == i && (n.key, n.data) == entries[i]
    {
      forall z | z in repr ensures Linked(z) && At(head, z.pos) == z { assert Linked(z); AtFromHead(z, z.pos); }
      forall i | 0 <= i < |entries| ensures exists n :: n in repr && n.pos == i && (n.key, n.data) == entries[i] {
        assert Linked(head);
        var n := At(head, i);
        assert Linked(n) && n in repr && n.pos == i && (n.key, n.data) == entries[i];
      }
    }
    // The first half again as a fact that can be recalled about an earlier state.
    ghost predicate DistinctPositions()
      requires Shape()
      reads this`head, this`repr, this`entries
      reads repr`left, repr`right, repr`parent, repr`lo, repr`pos, repr`hi, repr`key, repr`data
      ensures DistinctPositions()
    {
      NodesMatchEntries();
      forall z, m :: z in repr && m in repr && z.pos == m.pos ==> z == m
    }

    // ----- Linking a new leaf: entry k is inserted and every later position moves up by one.

    twostate predicate AttachedBelow(p: Node, new n: Node, new onRight: bool)
      reads this, repr
    {
      var k := if onRight then old(p.pos) + 1 else old(p.pos);
      && p in old(repr) && n !in old(repr) && repr == old(repr) + {n}
      && 0 <= k <= |old(entries)| && entries == InsertAt(old(entries), k, (n.key, n.data))
      && head == old(head)
      && n.left == null && n.right == null && n.parent == p && n.lo == k && n.pos == k && n.hi == k + 1
      && (forall m {:trigger m in old(repr)} :: m in old(repr) ==>
        && m.parent == old(m.parent) && m.key == old(m.key) && m.data == old(m.data)
        && m.left == (if m == p && !onRight then n else old(m.left))
        && m.right == (if m == p && onRight then n else old(m.right))
        && m.lo == old(m.lo) + (if old(m.lo) > k || (onRight && old(m.lo) == k) then 1 else 0)
        && m.pos == old(m.pos) + (if old(m.pos) >= k then 1 else 0)
        && m.hi == old(m.hi) + (if old(m.hi) > k || (onRight && old(m.hi) == k) then 1 else 0))
    }

    twostate lemma AttachedLinked(p: Node, new n: Node, new onRight: bool, new m: Node)
      requires old(Shape()) && AttachedBelow(p, n, onRight) && m in old(repr)
      requires old(if onRight then p.right == null else p.left == null)
      requires old(m.pos == p.pos) ==> m == p
      ensures Linked(m)
    {
      assert old(Linked(p)) && old(Linked(m));
    }

    twostate lemma AttachedShape(p: Node, new n: Node, new onRight: bool)
      requires old(Shape()) && AttachedBelow(p, n, onRight)
      requires old(if onRight then p.right == null else p.left == null)
      ensures Shape()
    {
      assert old(Linked(p));
      assert old(DistinctPositions());
      forall m | m in old(repr) ensures Linked(m) { AttachedLinked(p, n, onRight, m); }
      assert Linked(n);
    }

    // A leaf attached red keeps every black height; only its own edge can be red on red.
    twostate lemma AttachedInsertInv(p: Node, new n: Node, new onRight: bool)
      requires old(RedBlack()) && AttachedBelow(p, n, onRight)
      requires old(if onRight then p.right == null else p.left == null)
      requires !n.isBlack && n.bh == 0
      requires unchanged(old(repr)`isBlack, old(repr)`bh)
      ensures InsertInv(n)
    {
      AttachedShape(p, n, onRight);
      forall m | m in repr ensures Linked(m) && HeightOK(m) && (m != n ==> EdgeOK(m)) {
        assert Linked(m);
        assert m != n ==> old(Linked(m)) && old(HeightOK(m)) && old(EdgeOK(m));
      }
    }

    // Attach n where a failed search for its key ended: below p, on the side of the comparison.
    method AttachLeaf(p: Node, n: Node, onRight: bool)
      requires RedBlack() && p in repr && n !in repr
      requires n.left == null && n.right == null && !n.isBlack && n.bh == 0
      requires if onRight then p.right == null else p.left == null
      modifies this`repr, this`entries, n, p`left, p`right, repr`lo, repr`pos, repr`hi
      ensures InsertInv(n) && repr == old(repr) + {n}
      ensures n.key == old(n.key) && n.data == old(n.data)
      ensures var k := old(if onRight then p.pos + 1 else p.pos);
        && 0 <= k <= |old(entries)| && entries == InsertAt(old(entries), k, (n.key, n.data))
        && n.pos == k
    {
      assert Linked(p);
      n.parent := p;
      if onRight {
        p.right := n;
      } else {
        p.left := n;
      }
      OpenPosition(if onRight then p.pos + 1 else p.pos, n, onRight);
      assert AttachedBelow(p, n, onRight);
      AttachedInsertInv(p, n, onRight);
    }

    ghost method OpenPosition(k: int, n: Node, equal: bool)
      requires 0 <= k <= |entries| && n !in repr
      modifies this`repr, this`entries, n`lo, n`pos, n`hi, repr`lo, repr`pos, repr`hi
      ensures repr == old(repr) + {n} && entries == InsertAt(old(entries), k, (n.key, n.data))
      ensures n.lo == k && n.pos == k && n.hi == k + 1
      ensures forall m {:trigger m in old(repr)} :: m in old(repr) ==>
        && m.lo == old(m.lo) + (if old(m.lo) > k || (equal && old(m.lo) == k) then 1 else 0)
        && m.pos == old(m.pos) + (if old(m.pos) >= k then 1 else 0)
        && m.hi == old(m.hi) + (if old(m.hi) > k || (equal && old(m.hi) == k) then 1 else 0)
    {
      forall m | m in repr { m.lo := m.lo + (if m.lo > k || (equal && m.lo == k) then 1 else 0); }
      forall m | m in repr { m.pos := m.pos + (if m.pos >= k then 1 else 0); }
      forall m | m in repr { m.hi := m.hi + (if m.hi > k || (equal && m.hi == k) then 1 else 0); }
      n.lo, n.pos, n.hi := k, k, k + 1;
      repr, entries := repr + {n}, InsertAt(entries, k, (n.key, n.data));
    }

    method AttachHead(n: Node)
      requires RedBlack() && head == null
      requires n.left == null && n.right == null && n.parent == null && !n.isBlack && n.bh == 0
      modifies this`head, this`repr, this`entries, n
      ensures InsertInv(n) && repr == {n} && entries == [(n.key, n.data)]
      ensures n.key == old(n.key) && n.data == old(n.data) && n.pos == 0
    {
      head := n;
      repr, entries := {n}, [(n.key, n.data)];
      n.lo, n.pos, n.hi := 0, 0, 1;
    }

    // ----- Unlinking a node with at most one child: its entry goes, later positions move down.

    twostate predicate Spliced(z: Node, new c: Node?)
      reads this, repr, z
    {
      var k := old(z.pos);
      && z in old(repr) && repr == old(repr) - {z}
      && 0 <= k < |old(entries)| && entries == RemoveAt(old(entries), k)
      && head == (if old(head) == z then c else old(head))
      && (forall m {:trigger m in old(repr)} :: m in old(repr) && m != z ==>
        && m.parent == (if m == c then old(z.parent) else old(m.parent))
        && m.key == old(m.key) && m.data == old(m.data)
        && m.left == (if old(m.left) == z then c else old(m.left))
        && m.right == (if old(m.right) == z then c else old(m.right))
        && m.lo == old(m.lo) - (if old(m.lo) > k then 1 else 0)
        && m.pos == old(m.pos) - (if old(m.pos) > k then 1 else 0)
        && m.hi == old(m.hi) - (if old(m.hi) > k then 1 else 0))
    }

    twostate lemma SplicedOwn(z: Node, new c: Node?, new m: Node)
      requires old(Shape()) && z in old(repr) && c == (if old(z.left) != null then old(z.left) else old(z.right))
      requires old(z.left == null || z.right == null)
      requires Spliced(z, c) && m in old(repr) && m != z
      requires old(m.pos != z.pos)
      ensures 0 <= m.lo <= m.pos < m.hi <= |entries| && (m.key, m.data) == entries[m.pos]
    {
      assert old(Linked(z)) && old(Linked(m));
    }

    twostate lemma SplicedParent(z: Node, new c: Node?, new m: Node)
      requires old(Shape()) && z in old(repr) && c == (if old(z.left) != null then old(z.left) else old(z.right))
      requires old(z.left == null || z.right == null)
      requires Spliced(z, c) && m in old(repr) && m != z
      ensures (m.parent == null <==> m == head) &&
        (m.parent != null ==> m.parent in repr && (m.parent.left == m || m.parent.right == m))
    {
      assert old(Linked(z)) && old(Linked(m));
      var p := if m == c then old(z.parent) else old(m.parent);
      if p != null {
        assert old(Linked(p)) && p != z;
      }
    }

    twostate lemma SplicedLeft(z: Node, new c: Node?, new m: Node)
      requires old(Shape()) && z in old(repr) && c == (if old(z.left) != null then old(z.left) else old(z.right))
      requires old(z.left == null || z.right == null)
      requires Spliced(z, c) && m in old(repr) && m != z
      requires old(m.pos != z.pos && (m.left != null && m.left.pos == z.pos ==> m.left == z))
      ensures m.left == null <==> m.lo == m.pos
      ensures m.left != null ==> m.left in repr && m.left.parent == m && m.left.lo == m.lo && m.left.hi == m.pos
    {
      assert old(Linked(z)) && old(Linked(m));
      assert old(m.left != null ==> Linked(m.left));
    }

    twostate lemma SplicedRight(z: Node, new c: Node?, new m: Node)
      requires old(Shape()) && z in old(repr) && c == (if old(z.left) != null then old(z.left) else old(z.right))
      requires old(z.left == null || z.right == null)
      requires Spliced(z, c) && m in old(repr) && m != z
      requires old(m.pos != z.pos && (m.right != null && m.right.pos == z.pos ==> m.right == z))
      ensures m.right == null <==> m.hi == m.pos + 1
      ensures m.right != null ==>
        m.right in repr && m.right.parent == m && m.right.lo == m.pos + 1 && m.right.hi == m.hi
    {
      assert old(Linked(z)) && old(Linked(m));
      assert old(m.right != null ==> Linked(m.right));
    }

    twostate lemma SplicedLinked(z: Node, new c: Node?, new m: Node)
      requires old(Shape()) && z in old(repr) && c == (if old(z.left) != null then old(z.left) else old(z.right))
      requires old(z.left == null || z.right == null)
      requires Spliced(z, c) && m in old(repr) && m != z
      requires old(m.pos != z.pos && (m.left != null && m.left.pos == z.pos ==> m.left == z) &&
        (m.right != null && m.right.pos == z.pos ==> m.right == z))
      ensures Linked(m)
    {
      SplicedOwn(z, c, m);
      SplicedParent(z, c, m);
      SplicedLeft(z, c, m);
      SplicedRight(z, c, m);
    }

    twostate lemma SplicedShape(z: Node, new c: Node?)
      requires old(Shape()) && z in old(repr) && c == (if old(z.left) != null then old(z.left) else old(z.right))
      requires old(z.left == null || z.right == null)
      requires Spliced(z, c)
      ensures Shape()
    {
      assert old(Linked(z)) && old(DistinctPositions());
      assert old(Linked(head)) && old(head.left != null ==> Linked(head.left)) &&
        old(head.right != null ==> Linked(head.right));
      forall m | m in repr ensures Linked(m) {
        assert old(Linked(m));
        SplicedLinked(z, c, m);
      }
    }

    // A red node goes unnoticed; a black one leaves its child with an extra black.
    twostate lemma SplicedRed(z: Node, new c: Node?)
      requires old(RedBlack()) && z in old(repr) && c == (if old(z.left) != null then old(z.left) else old(z.right))
      requires old(z.left == null || z.right == null)
      requires Spliced(z, c) && unchanged(old(repr)`isBlack, old(repr)`bh)
      requires Shape() && old(!z.isBlack)
      ensures RedBlack()
    {
      assert old(Linked(z)) && old(Linked(head));
      forall m | m in repr ensures HeightOK(m) && EdgeOK(m) { SplicedColoursNode(z, c, m); }
    }

    twostate lemma SplicedBlack(z: Node, new c: Node?)
      requires old(RedBlack()) && z in old(repr) && c == (if old(z.left) != null then old(z.left) else old(z.right))
      requires old(z.left == null || z.right == null)
      requires Spliced(z, c) && unchanged(old(repr)`isBlack, old(repr)`bh)
      requires Shape() && old(z.isBlack)
      ensures DeleteInv(c, old(z.parent))
    {
      hide Linked, HeightOK, EdgeOK, Spliced;
      SplicedDeficient(z, c);
      forall m | m in repr
        ensures (m != old(z.parent) ==> HeightOK(m)) &&
        (m != c || m.isBlack ==> EdgeOK(m)) { SplicedColoursNode(z, c, m); }
    }

    twostate lemma SplicedDeficient(z: Node, new c: Node?)
      requires old(RedBlack()) && z in old(repr) && c == (if old(z.left) != null then old(z.left) else old(z.right))
      requires old(z.left == null || z.right == null)
      requires Spliced(z, c) && unchanged(old(repr)`isBlack, old(repr)`bh)
      requires Shape() && old(z.isBlack)
      ensures var p := old(z.parent);
        && (p == null <==> c == head) && (p != null ==> p in repr && Linked(p) && Deficient(p, c))
        && (head != null && head != c ==> head.isBlack) && (c != null ==> c in repr && c.parent == p)
    {
      assert old(Linked(z)) && old(HeightOK(z)) && old(Linked(head));
      assert old(z.left != null ==> Linked(z.left)) && old(z.right != null ==> Linked(z.right));
      assert old(z.parent) != null ==> old(Linked(z.parent)) && old(HeightOK(z.parent)) && Linked(old(z.parent));
    }

    twostate lemma SplicedColoursNode(z: Node, new c: Node?, new m: Node)
      requires old(RedBlack()) && z in old(repr) && c == (if old(z.left) != null then old(z.left) else old(z.right))
      requires old(z.left == null || z.right == null)
      requires Spliced(z, c) && unchanged(old(repr)`isBlack, old(repr)`bh) && Shape() && m in repr
      ensures Linked(m) && (m != old(z.parent) || !old(z.isBlack) ==> HeightOK(m)) &&
        (m != c || m.isBlack || !old(z.isBlack) ==> EdgeOK(m))
    {
      assert Linked(m) && old(Linked(z)) && old(Linked(m));
      assert old(HeightOK(z)) && old(HeightOK(m)) && old(EdgeOK(m)) && old(EdgeOK(z));
    }

    ghost method ClosePosition(z: Node)
      requires z in repr && 0 <= z.pos < |entries|
      modifies this`repr, this`entries, repr`lo, repr`pos, repr`hi
      ensures repr == old(repr) - {z} && entries == RemoveAt(old(entries), old(z.pos))
      ensures forall m {:trigger m in old(repr)} :: m in old(repr) && m != z ==>
        && m.lo == old(m.lo) - (if old(m.lo) > old(z.pos) then 1 else 0)
        && m.pos == old(m.pos) - (if old(m.pos) > old(z.pos) then 1 else 0)
        && m.hi == old(m.hi) - (if old(m.hi) > old(z.pos) then 1 else 0)
    {
      var k := z.pos;
      forall m | m in repr { m.lo := m.lo - (if m.lo > k then 1 else 0); }
      forall m | m in repr { m.pos := m.pos - (if m.pos > k then 1 else 0); }
      forall m | m in repr { m.hi := m.hi - (if m.hi > k then 1 else 0); }
      repr, entries := repr - {z}, RemoveAt(entries, k);
    }

    // Hang the only child of z (or nothing) in z's place.
    method Unlink(z: Node) returns (c: Node?)
      requires Shape() && z in repr && (z.left == null || z.right == null)
      modifies this`head, this`repr, this`entries, repr`left, repr`right, repr`parent, repr`lo, repr`pos, repr`hi
      ensures c == (if old(z.left) != null then old(z.left) else old(z.right)) && z.parent == old(z.parent)
      ensures Spliced(z, c) && Shape()
    {
      LeftChildLinks(z);
      RightChildLinks(z);
      assert Linked(z);
      c := if z.left != null then z.left else z.right;
      ReplaceChild(z, c);
      ClosePosition(z);
      assert Spliced(z, c);
      SplicedShape(z, c);
    }

    // The node z with at most one child leaves the tree (btree_rb.c:993-1017).
    method SpliceOut(z: Node)
      requires RedBlack() && z in repr && (z.left == null || z.right == null)
      modifies this`head, this`repr, this`entries, repr`left, repr`right, repr`parent, repr`lo, repr`pos, repr`hi,
        repr`isBlack, repr`bh
      ensures RedBlack() && repr == old(repr) - {z}
      ensures 0 <= old(z.pos) < |old(entries)| && entries == RemoveAt(old(entries), old(z.pos))
      ensures forall m :: m in repr ==> m.pos == old(m.pos) - (if old(m.pos) > old(z.pos) then 1 else 0)
    {
      var c := Unlink(z);
      if z.isBlack {
        SplicedBlack(z, c);
        DeleteBalancing(c, z.parent);
      } else {
        SplicedRed(z, c);
      }
    }

    // ----- Searching and stepping (btree_rb.c:871-903, 1071-1163).

    method Search(key: Key) returns (n: Node?, res: int)
      requires Shape() && Sorted(entries)
      ensures -1 <= res <= 1 && (n == null <==> entries == []) && (n == null ==> res == -1)
      ensures n != null ==> n in repr && Linked(n)
      ensures res == 0 ==> n != null && n.key == key
      ensures res == -1 && n != null ==> n.right == null && Slot(entries, key, n.pos + 1)
      ensures res == 1 ==> n != null && n.left == null && Slot(entries, key, n.pos)
    {
      var tmp: Node? := null;
      n := head;
      res := -1;
      while n != null && res != 0
        invariant -1 <= res <= 1
        invariant tmp == null ==> n == head && res == -1
        invariant tmp != null ==> tmp in repr && Linked(tmp)
        invariant n != null ==> n in repr && Linked(n)
        invariant res == 0 ==> n != null && n.key == key
        invariant n != null && res != 0 ==> Narrowed(entries, key, n.lo, n.hi)
        invariant n == null && tmp != null ==> res != 0
        invariant n == null && res == -1 && tmp != null ==> tmp.right == null && Slot(entries, key, tmp.pos + 1)
        invariant n == null && res == 1 ==> tmp != null && tmp.left == null && Slot(entries, key, tmp.pos)
        decreases if n != null && res != 0 then 1 + Width(n) else 0
      {
        res := KeyCompare(n.key, key);
        tmp := n;
        Narrow(entries, key, n.lo, n.pos, n.hi);
        assert n.left != null ==> Linked(n.left);
        assert n.right != null ==> Linked(n.right);
        if res == 1 {
          n := n.left;
        } else if res == -1 {
          n := n.right;
        }
      }
      if n == null {
        n := tmp;
      }
    }

    method Leftmost(a: Node) returns (n: Node)
      requires Shape() && a in repr
      ensures n in repr && Linked(n) && n.pos == a.lo && n.left == null
    {
      n := a;
      assert Linked(n);
      while n.left != null
        invariant n in repr && Linked(n) && n.lo == a.lo
        decreases n.hi - n.lo
      {
        assert Linked(n.left);
        n := n.left;
      }
    }

    method Rightmost(a: Node) returns (n: Node)
      requires Shape() && a in repr
      ensures n in repr && Linked(n) && n.pos == a.hi - 1
    {
      n := a;
      assert Linked(n);
      while n.right != null
        invariant n in repr && Linked(n) && n.hi == a.hi
        decreases n.hi - n.lo
      {
        assert Linked(n.right);
        n := n.right;
      }
    }

    // Up to the first ancestor reached from its left child.
    method ClimbLeft(a: Node) returns (n: Node?)
      requires Shape() && a in repr
      ensures if n == null then a.hi == |entries| else n in repr && Linked(n) && n.pos == a.hi
    {
      var x := a;
      assert Linked(x);
      n := x.parent;
      assert n != null ==> Linked(n);
      while n != null && n.right == x
        invariant x in repr && Linked(x) && x.hi == a.hi && n == x.parent
        invariant n != null ==> n in repr && Linked(n)
        decreases |entries| - (x.hi - x.lo)
      {
        x := n;
        n := x.parent;
        assert n != null ==> Linked(n);
      }
    }

    // Up to the first ancestor reached from its right child.
    method ClimbRight(a: Node) returns (n: Node?)
      requires Shape() && a in repr
      ensures if n == null then a.lo == 0 else n in repr && Linked(n) && n.pos == a.lo - 1
    {
      var x := a;
      assert Linked(x);
      n := x.parent;
      assert n != null ==> Linked(n);
      while n != null && n.left == x
        invariant x in repr && Linked(x) && x.lo == a.lo && n == x.parent
        invariant n != null ==> n in repr && Linked(n)
        decreases |entries| - (x.hi - x.lo)
      {
        x := n;
        n := x.parent;
        assert n != null ==> Linked(n);
      }
    }

    constructor ()
      ensures RedBlack() && entries == [] && repr == {}
    {
      head, repr, entries := null, {}, [];
    }

    // ----- Whole operations on one table.

    // Link the new node where the failed search stopped, then rebalance (btree_rb.c:791-814).
    method InsertNode(p: Node?, n: Node, side: int)
      requires RedBlack() && Sorted(entries) && n !in repr
      requires n.left == null && n.right == null && n.parent == null && !n.isBlack && n.bh == 0
      requires (p == null <==> entries == []) && (p != null ==> p in repr)
      requires side == -1 || side == 1
      requires p != null && side == -1 ==> p.right == null && Slot(entries, n.key, p.pos + 1)
      requires p != null && side == 1 ==> p.left == null && Slot(entries, n.key, p.pos)
      modifies this, n, repr
      ensures RedBlack() && Sorted(entries) && repr == old(repr) + {n} && Linked(n)
      ensures n.key == old(n.key) && n.data == old(n.data)
      ensures n.key !in MapOf(old(entries)) && MapOf(entries) == MapOf(old(entries))[n.key := n.data]
      ensures MapOf(entries) - {n.key} == MapOf(old(entries))
    {
      ghost var e := entries;
      if p != null {
        InsertSorted(e, if side == -1 then p.pos + 1 else p.pos, (n.key, n.data));
        AttachLeaf(p, n, side == -1);
      } else {
        InsertSorted(e, 0, (n.key, n.data));
        assert InsertAt(e, 0, (n.key, n.data)) == [(n.key, n.data)];
        AttachHead(n);
      }
      InsertBalancing(n);
      assert Linked(n);
    }

    // Rewriting what one node stores.
    twostate predicate Rewritten(z: Node)
      reads this, repr
    {
      && z in repr && repr == old(repr) && head == old(head) && 0 <= z.pos < |entries| == |old(entries)|
      && entries == old(entries)[z.pos := (z.key, z.data)]
      && unchanged(repr`left, repr`right, repr`parent, repr`isBlack) && unchanged(repr`lo, repr`pos, repr`hi, repr`bh)
      && unchanged((repr - {z})`key, (repr - {z})`data)
    }

    twostate lemma RewrittenRedBlack(z: Node)
      requires old(RedBlack()) && z in old(repr) && Rewritten(z)
      ensures RedBlack()
    {
      assert old(DistinctPositions());
      forall n {:trigger Linked(n)} | n in repr ensures Linked(n) { assert old(Linked(n)); }
      forall n {:trigger HeightOK(n)} | n in repr
        ensures HeightOK(n) { assert Linked(n) && old(Linked(n)) && old(HeightOK(n)); }
      forall n {:trigger EdgeOK(n)} | n in repr
        ensures EdgeOK(n) { assert Linked(n) && old(Linked(n)) && old(EdgeOK(n)); }
    }

    method Rewrite(z: Node, key: Key, data: Data)
      requires RedBlack() && z in repr
      modifies this`entries, z`key, z`data
      ensures RedBlack() && Linked(z) && z.key == key && z.data == data
      ensures 0 <= z.pos < |old(entries)| && entries == old(entries)[z.pos := (key, data)]
    {
      assert Linked(z);
      z.key, z.data := key, data;
      entries := entries[z.pos := (key, data)];
      assert Rewritten(z);
      RewrittenRedBlack(z);
      assert Linked(z);
    }

    lemma RedBlackLinked(n: Node)
      requires RedBlack() && n in repr
      ensures Linked(n)
    {
      assert Linked(n);
    }

    lemma RedBlackShape()
      requires RedBlack()
      ensures Shape() && (head != null ==> head in repr) && (head == null <==> entries == [])
    {
    }

    lemma ShapeLinked(n: Node)
      requires Shape() && n in repr
      ensures Linked(n) && 0 <= n.pos < |entries| && entries[n.pos] == (n.key, n.data)
      ensures n.left != null ==> n.left in repr && Width(n.left) < Width(n)
      ensures n.right != null ==> n.right in repr && Width(n.right) < Width(n)
    {
      assert Linked(n);
      assert n.left != null ==> Linked(n.left);
      assert n.right != null ==> Linked(n.right);
    }

    lemma Emptied()
      requires Shape() && entries == []
      ensures head == null && repr == {} && RedBlack()
    {
    }

    lemma LeafParent(n: Node)
      requires Shape() && n in repr && n.left == null && n.right == null
      ensures if n.parent == null then |entries| == 1 else n.parent in repr && n.parent != n
    {
      assert Linked(n);
    }
  }
}
