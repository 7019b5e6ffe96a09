/** The balanced search tree behind the dictionary, as values: nodes carry an
    entry and a level, equal keys may repeat, and a comparison function orders
    the keys. `Dict` proves that the pointer code computes these functions. */
module AATree {
  import opened Wrappers

  const OD_DUP_ALL: bv16 := 0x36
  const OD_REPLACE: bv16 := 0x40
  const OD_DICT: bv16 := 0x100

  datatype Entry<K, V> = Entry(key: K, value: V, flags: bv16) {
    predicate Replaces() { flags & OD_REPLACE != 0 }
    function Cleared(): Entry<K, V> { this.(flags := 0) }
  }

  datatype Tree<K, V> = Nil | Node(left: Tree<K, V>, entry: Entry<K, V>, level: int, right: Tree<K, V>)

  /** `cmp(a, b)` is negative, zero or positive, as `strcmp` is. */
  type Cmp<!K> = (K, K) -> int

  // A total preorder. Keys that compare equal need not be identical.
  ghost predicate TotalPreorder<K(!new)>(cmp: Cmp<K>) {
    && (forall a, b :: cmp(a, b) < 0 <==> cmp(b, a) > 0)
    && (forall a, b, c {:trigger cmp(a, b), cmp(b, c), cmp(a, c)} ::
      cmp(a, b) <= 0 && cmp(b, c) <= 0 ==> cmp(a, c) <= 0)
  }

  function Level<K, V>(t: Tree<K, V>): int {
    if t.Nil? then 0 else t.level
  }

  function InOrder<K, V>(t: Tree<K, V>): seq<Entry<K, V>> {
    if t.Nil? then [] else InOrder(t.left) + [t.entry] + InOrder(t.right)
  }

  function Size<K, V>(t: Tree<K, V>): (n: nat)
    ensures n == |InOrder(t)|
  {
    if t.Nil? then 0 else 1 + Size(t.left) + Size(t.right)
  }

  function Height<K, V>(t: Tree<K, V>): nat {
    if t.Nil? then 0
    else 1 + if Height(t.left) < Height(t.right) then Height(t.right) else Height(t.left)
  }

  /** The level rules of an AA tree. A left child is one level below its parent, a
      right child is level with it or one below, and a right grandchild is below. */
  ghost predicate AA<K, V>(t: Tree<K, V>) {
    t.Node? ==>
      && AA(t.left) && AA(t.right)
      && 1 <= t.level
      && Level(t.left) == t.level - 1
      && t.level - 1 <= Level(t.right) <= t.level
      && (t.right.Node? ==> Level(t.right.right) < t.level)
  }

  // The right child stands on the same level as the root.
  predicate Horizontal<K, V>(t: Tree<K, V>) {
    t.Node? && t.right.Node? && t.right.level == t.level
  }

  // ---------- rebalancing ----------

  function Skew<K, V>(t: Tree<K, V>): Tree<K, V> {
    if t.Nil? || t.left.Nil? || t.left.level != t.level then t
    else Node(t.left.left, t.left.entry, t.left.level, Node(t.left.right, t.entry, t.level, t.right))
  }

  function Split<K, V>(t: Tree<K, V>): Tree<K, V> {
    if t.Nil? || t.right.Nil? || t.right.right.Nil? || t.level != t.right.right.level then t
    else Node(Node(t.left, t.entry, t.level, t.right.left), t.right.entry, t.right.level + 1, t.right.right)
  }

  function DecreaseLevel<K, V>(t: Tree<K, V>): Tree<K, V>
    requires t.Node?
  {
    var shouldBe := (if Level(t.left) < Level(t.right) then Level(t.left) else Level(t.right)) + 1;
    if shouldBe < t.level then
      var right := if t.right.Node? && shouldBe < t.right.level then t.right.(level := shouldBe) else t.right;
      t.(level := shouldBe, right := right)
    else t
  }

  function SkewRight<K, V>(t: Tree<K, V>): Tree<K, V> {
    if t.Nil? then t else t.(right := Skew(t.right))
  }

  function SkewRightRight<K, V>(t: Tree<K, V>): Tree<K, V> {
    if t.Nil? then t else t.(right := SkewRight(t.right))
  }

  function SplitRight<K, V>(t: Tree<K, V>): Tree<K, V> {
    if t.Nil? then t else t.(right := Split(t.right))
  }

  // What a removal does at each node on its way up: one level decrease, three skews, two splits.
  function Rebalance<K, V>(t: Tree<K, V>): Tree<K, V>
    requires t.Node?
  {
    SplitRight(Split(SkewRightRight(SkewRight(Skew(DecreaseLevel(t))))))
  }

  lemma SkewInOrder<K, V>(t: Tree<K, V>)
    ensures InOrder(Skew(t)) == InOrder(t)
    ensures t.Node? ==> Skew(t).Node?
  {
    if Skew(t) != t {
      var l := t.left;
      assert InOrder(Skew(t)) == InOrder(l.left) + [l.entry] + (InOrder(l.right) + [t.entry] + InOrder(t.right));
      assert InOrder(t) == (InOrder(l.left) + [l.entry] + InOrder(l.right)) + [t.entry] + InOrder(t.right);
    }
  }

  lemma SplitInOrder<K, V>(t: Tree<K, V>)
    ensures InOrder(Split(t)) == InOrder(t)
    ensures t.Node? ==> Split(t).Node?
  {
    if Split(t) != t {
      var r := t.right;
      assert InOrder(Split(t)) == (InOrder(t.left) + [t.entry] + InOrder(r.left)) + [r.entry] + InOrder(r.right);
      assert InOrder(t) == InOrder(t.left) + [t.entry] + (InOrder(r.left) + [r.entry] + InOrder(r.right));
    }
  }

  lemma RebalanceInOrder<K, V>(t: Tree<K, V>)
    requires t.Node?
    ensures InOrder(Rebalance(t)) == InOrder(t)
  {
    var t1 := DecreaseLevel(t);
    var t2 := Skew(t1);
    var t3 := SkewRight(t2);
    var t4 := SkewRightRight(t3);
    var t5 := Split(t4);
    SkewInOrder(t1);
    SkewInOrder(t2.right);
    assert InOrder(t3) == InOrder(t2);
    if t3.right.Node? {
      SkewInOrder(t3.right.right);
      assert InOrder(SkewRight(t3.right)) == InOrder(t3.right);
    }
    assert InOrder(t4) == InOrder(t3);
    SplitInOrder(t4);
    SplitInOrder(t5.right);
  }

  // The shapes rebalancing leaves behind, one lemma per shape it meets. Every
  // variable is a subtree or an entry, and only the levels decide what happens.

  // A right child level with its parent, whose left child has a horizontal link.
  lemma ForkDouble<K, V>(l: Tree<K, V>, x: Entry<K, V>, n: int, al: Tree<K, V>, ax: Entry<K, V>,
                         m: Tree<K, V>, y: Entry<K, V>, b: Tree<K, V>)
    requires m.Node? && b.Node? && m.level == b.level == n
    requires Level(l) == Level(m.left) == n - 1
    ensures Rebalance(Node(l, x, n + 1, Node(Node(al, ax, n, m), y, n + 1, b)))
         == Node(Node(l, x, n, al), ax, n + 1, Node(m, y, n + 1, b))
  {
    var d := Node(m.right, y, n, b);
    var t := Node(l, x, n + 1, Node(Node(al, ax, n, m), y, n + 1, b));
    assert Skew(DecreaseLevel(t)) == Node(l, x, n, Node(Node(al, ax, n, m), y, n, b));
    assert SkewRightRight(Node(l, x, n, Node(al, ax, n, Node(m, y, n, b)))) ==
      Node(l, x, n, Node(al, ax, n, m.(right := d)));
  }

  // The same with a left child that has none.
  lemma ForkSingle<K, V>(l: Tree<K, V>, x: Entry<K, V>, n: int, al: Tree<K, V>, ax: Entry<K, V>,
                         ar: Tree<K, V>, y: Entry<K, V>, b: Tree<K, V>)
    requires b.Node? && b.level == n && 1 <= n
    requires Level(l) == Level(ar) == n - 1
    ensures Rebalance(Node(l, x, n + 1, Node(Node(al, ax, n, ar), y, n + 1, b)))
         == Node(Node(l, x, n, al), ax, n + 1, Split(Node(ar, y, n, b)))
  {
    var t := Node(l, x, n + 1, Node(Node(al, ax, n, ar), y, n + 1, b));
    assert Skew(DecreaseLevel(t)) == Node(l, x, n, Node(Node(al, ax, n, ar), y, n, b));
    assert SkewRightRight(Node(l, x, n, Node(al, ax, n, Node(ar, y, n, b)))) ==
      Node(l, x, n, Node(al, ax, n, Node(ar, y, n, b)));
  }

  // A right child one level below.
  lemma RightBelow<K, V>(l: Tree<K, V>, x: Entry<K, V>, n: int, c: Tree<K, V>)
    requires c.Node? && c.level == n && 1 <= n
    requires Level(l) == Level(c.left) == n - 1
    requires c.right.Node? ==> Level(c.right.left) < c.right.level
    ensures Rebalance(Node(l, x, n + 1, c))
         == if Horizontal(c) then Node(Node(l, x, n, c.left), c.entry, n + 1, Split(c.right))
             else Node(l, x, n, Split(c))
  {
    assert DecreaseLevel(Node(l, x, n + 1, c)) == Node(l, x, n, c);
  }

  // A left child with a horizontal link, over a right subtree that lost a level.
  lemma LeftDouble<K, V>(ll: Tree<K, V>, lx: Entry<K, V>, n: int, m: Tree<K, V>, x: Entry<K, V>, r: Tree<K, V>)
    requires m.Node? && m.level == n && Level(r) == n - 1 && 1 <= n
    requires Level(m.right) < n
    ensures Rebalance(Node(Node(ll, lx, n, m), x, n + 1, r))
         == Node(Node(ll, lx, n, m.left), m.entry, n + 1, Split(Node(m.right, x, n, r)))
  {
    assert DecreaseLevel(Node(Node(ll, lx, n, m), x, n + 1, r)) == Node(Node(ll, lx, n, m), x, n, r);
    assert Skew(Node(Node(ll, lx, n, m), x, n, r)) == Node(ll, lx, n, Node(m, x, n, r));
    assert SkewRightRight(SkewRight(Node(ll, lx, n, Node(m, x, n, r)))) ==
      Node(ll, lx, n, m.(right := Node(m.right, x, n, r)));
  }

  lemma LeftSingle<K, V>(ll: Tree<K, V>, lx: Entry<K, V>, n: int, lr: Tree<K, V>, x: Entry<K, V>, r: Tree<K, V>)
    requires Level(lr) == n - 1 && Level(r) == n - 1 && 1 <= n
    requires r.Node? ==> Level(r.left) < r.level
    ensures Rebalance(Node(Node(ll, lx, n, lr), x, n + 1, r))
         == Node(ll, lx, n, Split(Node(lr, x, n, r)))
  {
    assert DecreaseLevel(Node(Node(ll, lx, n, lr), x, n + 1, r)) == Node(Node(ll, lx, n, lr), x, n, r);
    assert Skew(Node(Node(ll, lx, n, lr), x, n, r)) == Node(ll, lx, n, Node(lr, x, n, r));
    assert SkewRightRight(SkewRight(Node(ll, lx, n, Node(lr, x, n, r)))) == Node(ll, lx, n, Node(lr, x, n, r));
  }

  lemma SplitKeepsLow<K, V>(t: Tree<K, V>)
    requires t.Node? && (t.right.Node? && t.right.right.Node? ==> t.right.right.level < t.level)
    ensures Split(t) == t
  {
  }

  lemma RebalanceFork<K, V>(l: Tree<K, V>, x: Entry<K, V>, n: int, a: Tree<K, V>, y: Entry<K, V>, b: Tree<K, V>)
    requires AA(l) && AA(a) && AA(b) && 1 <= n
    requires a.Node? && b.Node? && a.level == b.level == n && Level(l) == n - 1
    ensures var r := Rebalance(Node(l, x, n + 1, Node(a, y, n + 1, b)));
      AA(r) && Level(r) == n + 1
  {
    var Node(al, ax, _, ar) := a;
    assert AA(Node(l, x, n, al)) by {
      assert AA(al);
    }
    if Horizontal(a) {
      ForkDouble(l, x, n, al, ax, ar, y, b);
      assert AA(Node(ar, y, n + 1, b)) by {
        assert AA(b.right);
      }
    } else {
      ForkSingle(l, x, n, al, ax, ar, y, b);
      SplitTop(ar, y, n, b);
    }
  }

  /** Rebalancing repairs a node whose left subtree lost a level. */
  lemma RebalanceAfterLeft<K, V>(t: Tree<K, V>)
    requires t.Node? && AA(t.left) && AA(t.right) && 1 <= t.level
    requires t.level - 2 <= Level(t.left) <= t.level - 1
    requires t.level - 1 <= Level(t.right) <= t.level
    requires t.right.Node? ==> Level(t.right.right) < t.level
    ensures AA(Rebalance(t)) && t.level - 1 <= Level(Rebalance(t)) <= t.level
    ensures Level(Rebalance(t)) == t.level && Horizontal(Rebalance(t)) ==> Horizontal(t)
    ensures Level(t.left) == t.level - 1 ==> Rebalance(t) == t
  {
    if Level(t.left) == t.level - 1 {
      UnchangedByRebalance(t);
    } else {
      var n := t.level - 1;
      var Node(l, x, _, c) := t;
      if c.level == t.level {
        RebalanceFork(l, x, n, c.left, c.entry, c.right);
      } else {
        assert AA(c.right) && AA(c.left);
        RightBelow(l, x, n, c);
        if Horizontal(c) {
          SplitKeepsLow(c.right);
          assert AA(Node(l, x, n, c.left));
        } else {
          SplitKeepsLow(c);
        }
      }
    }
  }

  // A split at the top of two subtrees, the right one level with the node.
  lemma SplitTop<K, V>(l: Tree<K, V>, x: Entry<K, V>, n: int, b: Tree<K, V>)
    requires AA(l) && AA(b) && Level(l) == n - 1 && b.Node? && b.level == n
    ensures AA(Split(Node(l, x, n, b)))
    ensures var s := Split(Node(l, x, n, b));
      if Horizontal(b) then Level(s) == n + 1 && !Horizontal(s) else Level(s) == n
  {
    if Horizontal(b) {
      assert AA(b.right) && AA(b.left);
      assert AA(Node(l, x, n, b.left));
    }
  }

  lemma UnchangedByRebalance<K, V>(t: Tree<K, V>)
    requires AA(t) && t.Node?
    ensures Rebalance(t) == t
  {
    assert DecreaseLevel(t) == t;
    assert Skew(t) == t;
    if t.right.Node? {
      assert AA(t.right);
      assert AA(t.right.right);
      assert SkewRight(t) == t;
      assert SkewRightRight(t) == t;
      assert Split(t.right) == t.right;
    }
  }

  /** Rebalancing repairs a node whose right subtree lost a level. */
  lemma RebalanceAfterRight<K, V>(t: Tree<K, V>)
    requires t.Node? && AA(t.left) && AA(t.right) && 1 <= t.level
    requires Level(t.left) == t.level - 1
    requires t.level - 2 <= Level(t.right) <= t.level
    requires t.right.Node? ==> Level(t.right.right) < t.level
    ensures AA(Rebalance(t)) && t.level - 1 <= Level(Rebalance(t)) <= t.level
    ensures Level(Rebalance(t)) == t.level && Horizontal(Rebalance(t)) ==> Horizontal(t)
    ensures Level(t.right) >= t.level - 1 ==> Rebalance(t) == t
  {
    if Level(t.right) >= t.level - 1 {
      UnchangedByRebalance(t);
    } else {
      var n := t.level - 1;
      var Node(l, x, _, r) := t;
      var Node(ll, lx, _, lr) := l;
      assert AA(lr);
      if Horizontal(l) {
        assert AA(lr.left) && AA(lr.right);
        LeftDouble(ll, lx, n, lr, x, r);
        SplitKeepsLow(Node(lr.right, x, n, r));
        assert AA(Node(ll, lx, n, lr.left));
        assert AA(Node(lr.right, x, n, r));
      } else {
        LeftSingle(ll, lx, n, lr, x, r);
        SplitKeepsLow(Node(lr, x, n, r));
        assert AA(Node(lr, x, n, r));
      }
    }
  }
}
