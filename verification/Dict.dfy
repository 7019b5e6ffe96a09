/** The dictionary as the library builds it: nodes linked by references and
    rewritten in place. Every method is proved to compute the tree function of the
    same name, and the nodes it owns never overlap. */
module Dict {
  import opened Wrappers
  import opened AATree
  import M = Multimap
  import opened Bytes

  class TreeNode<K(!new), V(!new)> {
    var data: Entry<K, V>
    var level: int
    var left: TreeNode?<K, V>
    var right: TreeNode?<K, V>
    ghost var Repr: set<TreeNode<K, V>>

    constructor (data: Entry<K, V>)
      ensures Valid() && Repr == {this} && this.data == data
      ensures level == 1 && left == null && right == null
    {
      this.data := data;
      level := 1;
      left := null;
      right := null;
      Repr := {this};
    }

    // The subtrees are valid, and no node is reachable in two ways.
    ghost predicate Valid()
      reads this`left, this`right, this`Repr, Repr`left, Repr`right, Repr`Repr
      decreases Repr
      ensures Valid() ==> this in Repr
    {
      && this in Repr
      && (left != null ==> left in Repr && left.Repr <= Repr && this !in left.Repr && left.Valid())
      && (right != null ==> right in Repr && right.Repr <= Repr && this !in right.Repr && right.Valid())
      && ReprOf(left) !! ReprOf(right)
      && Repr == {this} + ReprOf(left) + ReprOf(right)
    }
  }

  ghost function ReprOf<K(!new), V(!new)>(n: TreeNode?<K, V>): set<TreeNode<K, V>>
    reads (if n == null then {} else {n})`Repr
  {
    if n == null then {} else n.Repr
  }

  ghost predicate Ok<K(!new), V(!new)>(n: TreeNode?<K, V>)
    reads (if n == null then {} else {n} + n.Repr)`left, (if n == null then {} else {n} + n.Repr)`right
    reads (if n == null then {} else {n} + n.Repr)`Repr
  {
    n != null ==> n.Valid()
  }

  // The value a linked tree stands for.
  ghost function TreeOf<K(!new), V(!new)>(n: TreeNode?<K, V>): (t: Tree<K, V>)
    requires Ok(n)
    reads if n == null then {} else {n} + n.Repr
    decreases ReprOf(n)
    ensures t.Nil? <==> n == null
  {
    if n == null then Nil else Node(TreeOf(n.left), n.data, n.level, TreeOf(n.right))
  }

  // One level of the definitions above, so that the methods need no deeper unfolding.
  ghost predicate Linked<K(!new), V(!new)>(n: TreeNode<K, V>)
    reads n, ReprOf(n.left), ReprOf(n.right)
    reads if n.left == null then {} else {n.left}
    reads if n.right == null then {} else {n.right}
  {
    && Ok(n.left) && Ok(n.right)
    && n !in ReprOf(n.left) && n !in ReprOf(n.right)
    && ReprOf(n.left) !! ReprOf(n.right)
    && n.Repr == {n} + ReprOf(n.left) + ReprOf(n.right)
  }

  // What the root of a linked tree shows of the tree's value.
  ghost predicate Top<K(!new), V(!new)>(n: TreeNode?<K, V>, t: Tree<K, V>)
    reads (if n == null then {} else {n})`data, (if n == null then {} else {n})`level
  {
    if n == null then t.Nil? else t.Node? && t.entry == n.data && t.level == n.level
  }

  lemma Open<K(!new), V(!new)>(n: TreeNode<K, V>)
    requires Ok(n)
    ensures Linked(n) && TreeOf(n) == Node(TreeOf(n.left), n.data, n.level, TreeOf(n.right))
    ensures Top(n.left, TreeOf(n.left)) && Top(n.right, TreeOf(n.right))
  {
  }

  lemma Close<K(!new), V(!new)>(n: TreeNode<K, V>)
    requires Linked(n)
    ensures Ok(n) && TreeOf(n) == Node(TreeOf(n.left), n.data, n.level, TreeOf(n.right))
  {
  }

  lemma OfNull<K(!new), V(!new)>(n: TreeNode?<K, V>)
    requires n == null
    ensures Ok(n) && TreeOf(n) == Nil
  {
  }

  twostate lemma Same<K(!new), V(!new)>(n: TreeNode?<K, V>)
    requires old(Ok(n)) && unchanged(old(ReprOf(n)))
    ensures Ok(n) && ReprOf(n) == old(ReprOf(n)) && TreeOf(n) == old(TreeOf(n))
  {
  }

  // ---------- rebalancing ----------

  method SkewNode<K(!new), V(!new)>(node: TreeNode?<K, V>) returns (r: TreeNode?<K, V>)
    requires Ok(node)
    modifies ReprOf(node)
    ensures Ok(r) && ReprOf(r) == old(ReprOf(node)) && TreeOf(r) == Skew(old(TreeOf(node)))
    ensures node != null ==> r != null
  {
    hide Ok, TreeOf;
    if node == null {
      OfNull(node);
      return node;
    }
    Open(node);
    if node.left == null || node.left.level != node.level {
      return node;
    }
    var t := node.left;
    ghost var a, b, c := t.left, t.right, node.right;
    Open(t);
    node.left := t.right;
    node.Repr := {node} + ReprOf(node.left) + ReprOf(node.right);
    t.right := node;
    t.Repr := {t} + ReprOf(t.left) + node.Repr;
    Same(a);
    Same(b);
    Same(c);
    Close(node);
    Close(t);
    r := t;
  }

  method SplitNode<K(!new), V(!new)>(node: TreeNode?<K, V>) returns (r: TreeNode?<K, V>)
    requires Ok(node)
    modifies ReprOf(node)
    ensures Ok(r) && ReprOf(r) == old(ReprOf(node)) && TreeOf(r) == Split(old(TreeOf(node)))
    ensures node != null ==> r != null
  {
    hide Ok, TreeOf;
    if node == null {
      OfNull(node);
      return node;
    }
    Open(node);
    if node.right == null {
      return node;
    }
    Open(node.right);
    if node.right.right == null || node.level != node.right.right.level {
      return node;
    }
    var t := node.right;
    ghost var a, b, c := node.left, t.left, t.right;
    node.right := t.left;
    node.Repr := {node} + ReprOf(node.left) + ReprOf(node.right);
    t.left := node;
    t.level := t.level + 1;
    t.Repr := {t} + node.Repr + ReprOf(t.right);
    Same(a);
    Same(b);
    Same(c);
    Close(node);
    Close(t);
    r := t;
  }

  method DecreaseLevelOf<K(!new), V(!new)>(node: TreeNode<K, V>)
    requires Ok(node)
    modifies ReprOf(node)
    ensures Ok(node) && ReprOf(node) == old(ReprOf(node)) && TreeOf(node) == DecreaseLevel(old(TreeOf(node)))
  {
    hide Ok, TreeOf;
    Open(node);
    var levelLeft := if node.left != null then node.left.level else 0;
    var levelRight := if node.right != null then node.right.level else 0;
    var shouldBe := (if levelLeft < levelRight then levelLeft else levelRight) + 1;
    if shouldBe < node.level {
      ghost var l, r := node.left, node.right;
      if r != null {
        Open(r);
      }
      label before:
      node.level := shouldBe;
      if node.right != null && shouldBe < node.right.level {
        node.right.level := shouldBe;
        Same@before(r.left);
        Same@before(r.right);
        Close(r);
      } else {
        Same@before(r);
      }
      Same@before(l);
      Close(node);
    }
  }

  // `node->right = skew(node->right)` and its relatives: a child is replaced by a
  // rebalanced one made of the same nodes.
  method SkewRightOf<K(!new), V(!new)>(node: TreeNode<K, V>)
    requires Ok(node)
    modifies ReprOf(node)
    ensures Ok(node) && ReprOf(node) == old(ReprOf(node)) && TreeOf(node) == SkewRight(old(TreeOf(node)))
  {
    hide Ok, TreeOf;
    Open(node);
    ghost var l := node.left;
    label before:
    var r := SkewNode(node.right);
    label mid:
    node.right := r;
    Same@before(l);
    Same@mid(r);
    Close(node);
  }

  method SplitRightOf<K(!new), V(!new)>(node: TreeNode<K, V>)
    requires Ok(node)
    modifies ReprOf(node)
    ensures Ok(node) && ReprOf(node) == old(ReprOf(node)) && TreeOf(node) == SplitRight(old(TreeOf(node)))
  {
    hide Ok, TreeOf;
    Open(node);
    ghost var l := node.left;
    label before:
    var r := SplitNode(node.right);
    label mid:
    node.right := r;
    Same@before(l);
    Same@mid(r);
    Close(node);
  }

  method SkewRightRightOf<K(!new), V(!new)>(node: TreeNode<K, V>)
    requires Ok(node)
    modifies ReprOf(node)
    ensures Ok(node) && ReprOf(node) == old(ReprOf(node)) && TreeOf(node) == SkewRightRight(old(TreeOf(node)))
  {
    hide Ok, TreeOf;
    Open(node);
    if node.right != null {
      ghost var l := node.left;
      label before:
      SkewRightOf(node.right);
      Same@before(l);
      Close(node);
    }
  }

  method RebalanceNode<K(!new), V(!new)>(node: TreeNode<K, V>) returns (r: TreeNode<K, V>)
    requires Ok(node)
    modifies ReprOf(node)
    ensures Ok(r) && ReprOf(r) == old(ReprOf(node)) && TreeOf(r) == Rebalance(old(TreeOf(node)))
  {
    hide Ok, TreeOf;
    DecreaseLevelOf(node);
    r := SkewNode(node);
    SkewRightOf(r);
    SkewRightRightOf(r);
    r := SplitNode(r);
    SplitRightOf(r);
  }

  // ---------- insertion and removal ----------

  method NodeAdd<K(!new), V(!new)>(cmp: Cmp<K>, node: TreeNode?<K, V>, nnode: TreeNode<K, V>)
      returns (r: TreeNode<K, V>)
    requires Ok(node) && Ok(nnode) && nnode !in ReprOf(node)
    requires nnode.Repr == {nnode} && TreeOf(nnode) == Node(Nil, nnode.data, 1, Nil)
    modifies ReprOf(node), nnode
    ensures Ok(r) && ReprOf(r) <= old(ReprOf(node)) + {nnode}
    ensures TreeOf(r) == M.Insert(cmp, old(TreeOf(node)), old(nnode.data))
    decreases ReprOf(node), 1
  {
    hide Ok, TreeOf;
    if node == null {
      OfNull(node);
      return nnode;
    }
    Open(node);
    ghost var before, e := TreeOf(node), nnode.data;
    ghost var left, right := node.left, node.right;
    var c := cmp(nnode.data.key, node.data.key);
    label start:
    if c == 0 && nnode.data.Replaces() {
      node.data := nnode.data;
      Same@start(left);
      Same@start(right);
      Close(node);
      return node;
    } else if c < 0 {
      var t := NodeAdd(cmp, node.left, nnode);
      label grown:
      node.left := t;
      node.Repr := {node} + ReprOf(t) + ReprOf(right);
      Same@start(right);
      Same@grown(t);
    } else {
      var t := NodeAdd(cmp, node.right, nnode);
      label grown:
      node.right := t;
      node.Repr := {node} + ReprOf(left) + ReprOf(t);
      Same@start(left);
      Same@grown(t);
    }
    Close(node);
    r := SkewNode(node);
    r := SplitNode(r);
  }

  // The nodes a removal takes the entry of the neighbouring key from.
  ghost function LeftMost<K(!new), V(!new)>(n: TreeNode<K, V>): (t: TreeNode<K, V>)
    requires Ok(n)
    reads {n} + n.Repr
    decreases n.Repr
    ensures t in n.Repr && t.data == M.First(TreeOf(n))
  {
    if n.left == null then n else LeftMost(n.left)
  }

  ghost function RightMost<K(!new), V(!new)>(n: TreeNode<K, V>): (t: TreeNode<K, V>)
    requires Ok(n)
    reads {n} + n.Repr
    decreases n.Repr
    ensures t in n.Repr && t.data == M.Last(TreeOf(n))
  {
    if n.right == null then n else RightMost(n.right)
  }

  method FindLeftMost<K(!new), V(!new)>(n: TreeNode<K, V>) returns (t: TreeNode<K, V>)
    requires Ok(n)
    ensures t == LeftMost(n)
  {
    t := n;
    while t.left != null
      invariant Ok(t) && LeftMost(t) == LeftMost(n)
      decreases t.Repr
    {
      t := t.left;
    }
  }

  method FindRightMost<K(!new), V(!new)>(n: TreeNode<K, V>) returns (t: TreeNode<K, V>)
    requires Ok(n)
    ensures t == RightMost(n)
  {
    t := n;
    while t.right != null
      invariant Ok(t) && RightMost(t) == RightMost(n)
      decreases t.Repr
    {
      t := t.right;
    }
  }

  // The tree as if node t held entry e. It does not look at t's own entry.
  ghost function TreeWith<K(!new), V(!new)>(n: TreeNode?<K, V>, t: TreeNode<K, V>, e: Entry<K, V>): Tree<K, V>
    requires Ok(n)
    reads (if n == null then {} else {n} + n.Repr)`left, (if n == null then {} else {n} + n.Repr)`right
    reads (if n == null then {} else {n} + n.Repr)`Repr, (if n == null then {} else {n} + n.Repr)`level
    reads (if n == null then {} else {n} + n.Repr - {t})`data
    decreases ReprOf(n)
  {
    if n == null then Nil
    else Node(TreeWith(n.left, t, e), if n == t then e else n.data, n.level, TreeWith(n.right, t, e))
  }

  lemma {:induction false} WithOwn<K(!new), V(!new)>(n: TreeNode?<K, V>, t: TreeNode<K, V>)
    requires Ok(n)
    ensures TreeWith(n, t, t.data) == TreeOf(n)
    decreases ReprOf(n)
  {
    if n != null {
      WithOwn(n.left, t);
      WithOwn(n.right, t);
    }
  }

  lemma {:induction false} WithOutside<K(!new), V(!new)>(n: TreeNode?<K, V>, t: TreeNode<K, V>, e: Entry<K, V>)
    requires Ok(n) && t !in ReprOf(n)
    ensures TreeWith(n, t, e) == TreeOf(n)
    decreases ReprOf(n)
  {
    if n != null {
      WithOutside(n.left, t, e);
      WithOutside(n.right, t, e);
    }
  }

  // Clearing the flags of the leftmost node clears the tree's first entry.
  lemma {:induction false} WithClearedFirst<K(!new), V(!new)>(n: TreeNode<K, V>)
    requires Ok(n)
    ensures TreeWith(n, LeftMost(n), LeftMost(n).data.Cleared()) == M.ClearFirst(TreeOf(n))
    decreases n.Repr
  {
    var t := LeftMost(n);
    if n.left != null {
      WithClearedFirst(n.left);
    }
    WithOutside(n.right, t, t.data.Cleared());
  }

  lemma {:induction false} WithClearedLast<K(!new), V(!new)>(n: TreeNode<K, V>)
    requires Ok(n)
    ensures TreeWith(n, RightMost(n), RightMost(n).data.Cleared()) == M.ClearLast(TreeOf(n))
    decreases n.Repr
  {
    var t := RightMost(n);
    if n.right != null {
      WithClearedLast(n.right);
    }
    WithOutside(n.left, t, t.data.Cleared());
  }

  // Moves the entry of the next key up into node, leaving a cleared copy below.
  method TakeNext<K(!new), V(!new)>(node: TreeNode<K, V>) returns (t: TreeNode<K, V>)
    requires Ok(node) && node.right != null && TreeOf(node).right.Node?
    modifies node.Repr
    ensures Ok(node) && node.Repr == old(node.Repr) && t in node.Repr
    ensures var next := M.First(old(TreeOf(node)).right);
      && TreeOf(node) == old(TreeOf(node)).(entry := next, right := M.ClearFirst(old(TreeOf(node)).right))
      && t.data.key == next.key
  {
    hide Ok, TreeOf, TreeWith, LeftMost, RightMost;
    Open(node);
    ghost var l, r := node.left, node.right;
    t := FindLeftMost(node.right);
    WithClearedFirst(r);
    label before:
    node.data := t.data;
    t.data := t.data.Cleared();
    WithOwn(r, t);
    Same@before(l);
    Close(node);
  }

  method TakePrevious<K(!new), V(!new)>(node: TreeNode<K, V>) returns (t: TreeNode<K, V>)
    requires Ok(node) && node.left != null && TreeOf(node).left.Node?
    modifies node.Repr
    ensures Ok(node) && node.Repr == old(node.Repr) && t in node.Repr
    ensures var prev := M.Last(old(TreeOf(node)).left);
      && TreeOf(node) == old(TreeOf(node)).(entry := prev, left := M.ClearLast(old(TreeOf(node)).left))
      && t.data.key == prev.key
  {
    hide Ok, TreeOf, TreeWith, LeftMost, RightMost;
    Open(node);
    ghost var l, r := node.left, node.right;
    t := FindRightMost(node.left);
    WithClearedLast(l);
    label before:
    node.data := t.data;
    t.data := t.data.Cleared();
    WithOwn(l, t);
    Same@before(r);
    Close(node);
  }

  method NodeRemove<K(!new), V(!new)>(cmp: Cmp<K>, node: TreeNode?<K, V>, key: K) returns (r: TreeNode?<K, V>)
    requires Ok(node)
    modifies ReprOf(node)
    ensures Ok(r) && ReprOf(r) <= old(ReprOf(node))
    ensures TreeOf(r) == M.Remove(cmp, old(TreeOf(node)), key)
    decreases ReprOf(node), 1
  {
    hide Ok, TreeOf;
    if node == null {
      OfNull(node);
      return null;
    }
    Open(node);
    ghost var all := node.Repr;
    var c := cmp(key, node.data.key);
    if c < 0 {
      RemoveLeft(cmp, node, key, all);
    } else if c > 0 {
      RemoveRight(cmp, node, key, all);
    } else if node.left == null && node.right == null {
      OfNull<K, V>(null);
      return null;
    } else if node.left == null {
      var t := TakeNext(node);
      Open(node);
      RemoveRight(cmp, node, t.data.key, all);
    } else {
      var t := TakePrevious(node);
      Open(node);
      RemoveLeft(cmp, node, t.data.key, all);
    }
    r := RebalanceNode(node);
  }

  // node->left = onion_dict_node_remove(d, node->left, key)
  method RemoveLeft<K(!new), V(!new)>(cmp: Cmp<K>, node: TreeNode<K, V>, key: K, ghost all: set<TreeNode<K, V>>)
    requires Ok(node) && all == node.Repr
    modifies all
    ensures Ok(node) && node.Repr <= all
    ensures var was := old(TreeOf(node)); was.Node? && TreeOf(node) == was.(left := M.Remove(cmp, was.left, key))
    decreases all, 0
  {
    hide Ok, TreeOf;
    Open(node);
    ghost var right := node.right;
    label before:
    var t := NodeRemove(cmp, node.left, key);
    label after:
    node.left := t;
    node.Repr := {node} + ReprOf(t) + ReprOf(right);
    Same@before(right);
    Same@after(t);
    Close(node);
  }

  method RemoveRight<K(!new), V(!new)>(cmp: Cmp<K>, node: TreeNode<K, V>, key: K, ghost all: set<TreeNode<K, V>>)
    requires Ok(node) && all == node.Repr
    modifies all
    ensures Ok(node) && node.Repr <= all
    ensures var was := old(TreeOf(node)); was.Node? && TreeOf(node) == was.(right := M.Remove(cmp, was.right, key))
    decreases all, 0
  {
    hide Ok, TreeOf;
    Open(node);
    ghost var left := node.left;
    label before:
    var t := NodeRemove(cmp, node.right, key);
    label after:
    node.right := t;
    node.Repr := {node} + ReprOf(left) + ReprOf(t);
    Same@before(left);
    Same@after(t);
    Close(node);
  }

  // ---------- lookup and traversal ----------

  method FindNode<K(!new), V(!new)>(cmp: Cmp<K>, current: TreeNode?<K, V>, key: K) returns (r: TreeNode?<K, V>)
    requires Ok(current)
    ensures var f := M.Find(cmp, TreeOf(current), key);
      if f.Nil? then r == null else r != null && r in ReprOf(current) && r.data == f.entry
    decreases ReprOf(current)
  {
    if current == null {
      return null;
    }
    var c := cmp(key, current.data.key);
    if c == 0 {
      return current;
    }
    if c < 0 {
      r := FindNode(cmp, current.left, key);
    } else {
      r := FindNode(cmp, current.right, key);
    }
  }

  method NodeCount<K(!new), V(!new)>(node: TreeNode<K, V>) returns (c: nat)
    requires Ok(node)
    ensures c == |InOrder(TreeOf(node))|
    decreases node.Repr
  {
    c := 1;
    if node.left != null {
      var l := NodeCount(node.left);
      c := c + l;
    }
    if node.right != null {
      var r := NodeCount(node.right);
      c := c + r;
    }
  }

  // A copy of a linked tree as a value.
  method NodeValue<K(!new), V(!new)>(node: TreeNode?<K, V>) returns (t: Tree<K, V>)
    requires Ok(node)
    ensures t == TreeOf(node)
    decreases ReprOf(node)
  {
    if node == null {
      return Nil;
    }
    var l := NodeValue(node.left);
    var r := NodeValue(node.right);
    t := Node(l, node.data, node.level, r);
  }

  // ---------- the dictionary ----------

  /** The entry a traversal callback adds elsewhere: a hard duplicate keeps only the type
      flag, a merge keeps every flag of the entry. The value is duplicated either way, and
      `dup` is how that is done to a nested dictionary. */
  function Copy<V>(e: Entry<bytes, V>, hard: bool, dup: V -> V): Entry<bytes, V> {
    Entry(e.key, if e.flags & OD_DICT != 0 then dup(e.value) else e.value,
          if !hard then e.flags | OD_DUP_ALL
          else if e.flags & OD_DICT != 0 then OD_DUP_ALL | OD_DICT
          else OD_DUP_ALL)
  }

  /** Key and value are always to be duplicated. A merge keeps everything else about the
      entry; a hard duplicate keeps the type alone, so it replaces nothing. Only a nested
      dictionary becomes another value. */
  lemma CopyFlags<V>(e: Entry<bytes, V>, hard: bool, dup: V -> V)
    ensures var c := Copy(e, hard, dup);
      && c.key == e.key && c.value == (if e.flags & 0x100 == 0 then e.value else dup(e.value))
      && c.flags & 0x36 == 0x36 && c.flags & 0x100 == e.flags & 0x100
      && (!hard ==> (c.Replaces() <==> e.Replaces()) && c.flags & 0xFFC9 == e.flags & 0xFFC9)
      && (hard ==> !c.Replaces() && c.flags & 0xFEC9 == 0)
  {
  }

  function Copies<V>(s: seq<Entry<bytes, V>>, hard: bool, dup: V -> V): (r: seq<Entry<bytes, V>>)
    ensures |r| == |s| && forall i :: 0 <= i < |s| ==> r[i] == Copy(s[i], hard, dup)
  {
    seq(|s|, i requires 0 <= i < |s| => Copy(s[i], hard, dup))
  }

  class Dict<V(!new)> {
    var root: TreeNode?<bytes, V>
    var cmp: Cmp<bytes>
    var refcount: int
    var freed: bool

    ghost function Nodes(): set<TreeNode<bytes, V>>
      reads this, (if root == null then {} else {root})`Repr
    {
      ReprOf(root)
    }

    ghost function Value(): Tree<bytes, V>
      requires Ok(root)
      reads this, if root == null then {} else {root} + root.Repr
    {
      TreeOf(root)
    }

    /** The entries in key order; equal keys stand in insertion order. */
    ghost function Contents(): seq<Entry<bytes, V>>
      requires Ok(root)
      reads this, if root == null then {} else {root} + root.Repr
    {
      InOrder(Value())
    }

    // Linked without sharing, balanced, and sorted by the dictionary's comparison.
    ghost predicate Valid()
      reads this, if root == null then {} else {root} + root.Repr
      ensures Valid() ==> Ok(root)
    {
      Ok(root) && TotalPreorder(cmp) && AA(Value()) && M.Sorted(cmp, Contents())
    }

    constructor ()
      ensures Valid() && Nodes() == {} && Value() == Nil && cmp == StrCmp && refcount == 1 && !freed && root == null
    {
      root := null;
      cmp := StrCmp;
      refcount := 1;
      freed := false;
      StrCmpPreorder();
    }

    // One more reference to the same dictionary.
    method Dup()
      requires !freed
      modifies this`refcount
      ensures refcount == old(refcount) + 1
    {
      refcount := refcount + 1;
    }

    // One reference less; the last one frees the dictionary.
    method Free()
      requires !freed
      modifies this`refcount, this`freed
      ensures refcount == old(refcount) - 1 && freed == (refcount == 0)
    {
      refcount := refcount - 1;
      freed := refcount == 0;
    }

    /** Only the comparison changes: a dictionary that has entries stays one if and only if
        they are sorted for the new comparison. */
    method SetFlags(icase: bool)
      requires Valid()
      modifies this`cmp
      ensures Ok(root) && Nodes() == old(Nodes()) && Value() == old(Value())
      ensures cmp == if icase then StrCaseCmp else old(cmp)
      ensures Valid() <==> (icase ==> M.Sorted(StrCaseCmp, old(Contents())))
    {
      if icase {
        StrCaseCmpPreorder();
        cmp := StrCaseCmp;
      }
    }

    method Add(key: Option<bytes>, value: V, flags: bv16)
      requires Valid()
      modifies this, Nodes()
      ensures Valid() && fresh(Nodes() - old(Nodes())) && cmp == old(cmp) && refcount == old(refcount)
        && freed == old(freed)
      ensures Value() == if key.None? then old(Value()) else M.Insert(cmp, old(Value()), Entry(key.value, value, flags))
    {
      hide Ok, TreeOf, TotalPreorder;
      if key.None? {
        return;
      }
      var e := Entry(key.value, value, flags);
      M.InsertKeepsAA(cmp, Value(), e);
      M.InsertKeepsSorted(cmp, Value(), e);
      var nnode := new TreeNode(e);
      Fresh(nnode);
      root := NodeAdd(cmp, root, nnode);
    }

    method Remove(key: bytes)
      requires Valid()
      modifies this, Nodes()
      ensures Valid() && Nodes() <= old(Nodes()) && cmp == old(cmp) && refcount == old(refcount) && freed == old(freed)
      ensures Value() == M.Remove(cmp, old(Value()), key)
    {
      hide Ok, TreeOf, TotalPreorder;
      M.RemoveKeepsAA(cmp, Value(), key);
      M.RemoveKeepsSorted(cmp, Value(), key);
      root := NodeRemove(cmp, root, key);
    }

    /** A string value, if the entry a lookup finds holds one. No entry with an equal
        key means no value, and a value comes from an entry with an equal key. */
    method Get(key: bytes) returns (r: Option<V>)
      requires Valid()
      ensures var f := M.Find(cmp, Value(), key);
        r == if f.Node? && f.entry.flags & OD_DICT == 0 then Some(f.entry.value) else None
      ensures !M.HasKey(cmp, Contents(), key) ==> r == None
      ensures r.Some? ==> exists i ::
        0 <= i < |Contents()| && cmp(key, Contents()[i].key) == 0 && Contents()[i].value == r.value
    {
      M.FindIffPresent(cmp, Value(), key);
      var n := FindNode(cmp, root, key);
      r := None;
      if n != null && n.data.flags & OD_DICT == 0 {
        r := Some(n.data.value);
        assert Contents()[M.FindIndex(cmp, Value(), key)].value == n.data.value;
      }
    }

    method GetDict(key: bytes) returns (r: Option<V>)
      requires Valid()
      ensures var f := M.Find(cmp, Value(), key);
        r == if f.Node? && f.entry.flags & OD_DICT != 0 then Some(f.entry.value) else None
    {
      var n := FindNode(cmp, root, key);
      r := if n != null && n.data.flags & OD_DICT != 0 then Some(n.data.value) else None;
    }

    method Count() returns (c: nat)
      requires Valid()
      ensures c == |Contents()|
    {
      if root == null {
        return 0;
      }
      c := NodeCount(root);
    }

    // A traversal of other nodes whose callback adds every entry to this dictionary.
    method AddFrom(node: TreeNode?<bytes, V>, hard: bool, dup: V -> V)
      requires Valid() && Ok(node) && ReprOf(node) !! Nodes()
      modifies this, Nodes()
      ensures Valid() && fresh(Nodes() - old(Nodes())) && cmp == old(cmp) && refcount == old(refcount)
        && freed == old(freed)
      ensures Value() == M.InsertAll(cmp, old(Value()), Copies(InOrder(old(TreeOf(node))), hard, dup))
      decreases ReprOf(node)
    {
      hide Ok, TreeOf, TotalPreorder, Dict.Valid, M.InsertAll, M.Insert, Copy;
      if node == null {
        OfNull(node);
        assert InOrder(TreeOf(node)) == [] && Copies(InOrder(TreeOf(node)), hard, dup) == [];
        M.InsertAllNone(cmp, Value());
        return;
      }
      Open(node);
      var left, e, right := node.left, node.data, node.right;
      ghost var l, r := InOrder(TreeOf(left)), InOrder(TreeOf(right));
      ghost var t := Value();
      AddFrom(left, hard, dup);
      var c := Copy(e, hard, dup);
      Add(Some(c.key), c.value, c.flags);
      Same(right);
      AddFrom(right, hard, dup);
      CopiesJoin(l, e, r, hard, dup);
      M.InsertAllCons(cmp, M.InsertAll(cmp, t, Copies(l, hard, dup)), c, Copies(r, hard, dup));
      M.InsertAllJoins(cmp, t, Copies(l, hard, dup), [c] + Copies(r, hard, dup));
    }

    /** Merging adds the other dictionary's entries in its order. */
    method Merge(other: Dict<V>, dup: V -> V)
      requires Valid() && other.Valid() && other != this && other.Nodes() !! Nodes()
      modifies this, Nodes()
      ensures Valid() && fresh(Nodes() - old(Nodes())) && cmp == old(cmp)
      ensures Value() == M.InsertAll(cmp, old(Value()), Copies(old(other.Contents()), false, dup))
    {
      AddFrom(other.root, false, dup);
    }

    /** A hard duplicate is a new dictionary compared with `strcmp`. It has the same
        entries, and in the same order if and only if they were in `strcmp` order. */
    method HardDup(dup: V -> V) returns (d: Dict<V>)
      requires Valid()
      ensures fresh(d) && fresh(d.Nodes()) && d.Valid() && d.cmp == StrCmp
      ensures d.Value() == M.InsertAll(StrCmp, Nil, Copies(Contents(), true, dup))
      ensures multiset(d.Contents()) == multiset(Copies(Contents(), true, dup))
      ensures d.Contents() == Copies(Contents(), true, dup) <==> M.Sorted(StrCmp, Contents())
    {
      hide Ok, TreeOf, TotalPreorder, M.Sorted, AA, M.InsertAll, InOrder, M.NoReplace, Copy;
      d := new Dict();
      d.AddFrom(root, true, dup);
      CopyOfEntries(Contents(), dup);
    }
  }

  // The hard duplicate of some entries.
  lemma CopyOfEntries<V(!new)>(s: seq<Entry<bytes, V>>, dup: V -> V)
    ensures var c := Copies(s, true, dup);
      && multiset(InOrder(M.InsertAll(StrCmp, Nil, c))) == multiset(c)
      && (InOrder(M.InsertAll(StrCmp, Nil, c)) == c <==> M.Sorted(StrCmp, s))
  {
    StrCmpPreorder();
    hide TotalPreorder, Copy, M.Sorted, M.NoReplace;
    var c := Copies(s, true, dup);
    CopiesSorted(s, true, dup);
    M.CopyKeepsOrderIff(StrCmp, c);
    M.InsertAllAdds(StrCmp, c);
  }

  lemma CopiesJoin<V(!new)>(l: seq<Entry<bytes, V>>, e: Entry<bytes, V>, r: seq<Entry<bytes, V>>, hard: bool,
      dup: V -> V)
    ensures Copies(l + [e] + r, hard, dup) == Copies(l, hard, dup) + ([Copy(e, hard, dup)] + Copies(r, hard, dup))
  {
  }

  lemma CopiesSorted<V(!new)>(s: seq<Entry<bytes, V>>, hard: bool, dup: V -> V)
    ensures M.Sorted(StrCmp, Copies(s, hard, dup)) <==> M.Sorted(StrCmp, s)
    ensures hard ==> M.NoReplace(Copies(s, hard, dup))
  {
    var c := Copies(s, hard, dup);
    forall i, j | 0 <= i < j < |s| ensures StrCmp(c[i].key, c[j].key) == StrCmp(s[i].key, s[j].key) {
    }
  }

  const LOWER: bytes := [0x61]
  const UPPER: bytes := [0x42]

  /** "a" and "B" in a dictionary that ignores case change places in a hard duplicate. */
  lemma HardDupReorders<V(!new)>(v: V, w: V, flags: bv16, dup: V -> V)
    requires flags & OD_REPLACE == 0
    ensures var s := [Entry(LOWER, v, flags), Entry(UPPER, w, flags)];
      && InOrder(M.InsertAll(StrCaseCmp, Nil, s)) == s
      && InOrder(M.InsertAll(StrCmp, Nil, Copies(s, true, dup))) == [Copy(s[1], true, dup), Copy(s[0], true, dup)]
  {
    var s := [Entry(LOWER, v, flags), Entry(UPPER, w, flags)];
    var c := Copies(s, true, dup);
    StrCmpPreorder();
    StrCaseCmpPreorder();
    LettersDiffer();
    hide TotalPreorder, StrCmp, StrCaseCmp;
    M.CopyKeepsOrderIff(StrCaseCmp, s);
    assert c == [c[0], c[1]];
    M.TwoSwap(StrCmp, c[0], c[1]);
  }

  lemma LettersDiffer()
    ensures StrCaseCmp(LOWER, UPPER) < 0 && StrCmp(UPPER, LOWER) < 0
  {
  }

  lemma Fresh<K(!new), V(!new)>(n: TreeNode<K, V>)
    requires n.Valid() && n.left == null && n.right == null && n.level == 1
    ensures Ok(n) && n.Repr == {n} && TreeOf(n) == Node(Nil, n.data, 1, Nil)
  {
  }
}
