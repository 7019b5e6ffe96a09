/** Search, insertion and removal on the balanced tree, and their meaning on the
    in-order sequence of entries: a sorted list in which equal keys may repeat. */
module Multimap {
  import opened AATree

  // ---------- the simple form: a sorted sequence ----------

  ghost predicate Sorted<K, V>(cmp: Cmp<K>, s: seq<Entry<K, V>>) {
    forall i, j :: 0 <= i < j < |s| ==> cmp(s[i].key, s[j].key) <= 0
  }

  ghost predicate DistinctKeys<K, V>(cmp: Cmp<K>, s: seq<Entry<K, V>>) {
    forall i, j :: 0 <= i < j < |s| ==> cmp(s[i].key, s[j].key) != 0
  }

  ghost predicate HasKey<K, V>(cmp: Cmp<K>, s: seq<Entry<K, V>>, key: K) {
    exists i :: 0 <= i < |s| && cmp(key, s[i].key) == 0
  }

  function Without<T>(s: seq<T>, i: nat): seq<T>
    requires i < |s|
  {
    s[..i] + s[i + 1..]
  }

  // Position by position, the keys of the two sequences compare equal.
  ghost predicate SameKeys<K, V>(cmp: Cmp<K>, s: seq<Entry<K, V>>, r: seq<Entry<K, V>>) {
    |s| == |r| && forall i :: 0 <= i < |s| ==> cmp(s[i].key, r[i].key) == 0
  }

  /** The new entry goes in front of the first strictly larger key. */
  function StableInsert<K, V>(cmp: Cmp<K>, s: seq<Entry<K, V>>, e: Entry<K, V>): seq<Entry<K, V>> {
    if s == [] then [e]
    else if cmp(e.key, s[0].key) < 0 then [e] + s
    else [s[0]] + StableInsert(cmp, s[1..], e)
  }

  // ---------- the tree operations ----------

  // The subtree at which a lookup stops: the node found, or Nil.
  function Find<K, V>(cmp: Cmp<K>, t: Tree<K, V>, key: K): Tree<K, V> {
    if t.Nil? then Nil
    else
      var c := cmp(key, t.entry.key);
      if c == 0 then t
      else if c < 0 then Find(cmp, t.left, key)
      else Find(cmp, t.right, key)
  }

  // Where in the in-order sequence the found entry stands.
  function FindIndex<K, V>(cmp: Cmp<K>, t: Tree<K, V>, key: K): (i: nat)
    requires Find(cmp, t, key).Node?
    ensures i < Size(t) && InOrder(t)[i] == Find(cmp, t, key).entry
  {
    var c := cmp(key, t.entry.key);
    if c == 0 then Size(t.left)
    else if c < 0 then FindIndex(cmp, t.left, key)
    else Size(t.left) + 1 + FindIndex(cmp, t.right, key)
  }

  // The number of key comparisons a lookup makes.
  function Visits<K, V>(cmp: Cmp<K>, t: Tree<K, V>, key: K): nat {
    if t.Nil? then 0
    else
      var c := cmp(key, t.entry.key);
      if c == 0 then 1
      else if c < 0 then 1 + Visits(cmp, t.left, key)
      else 1 + Visits(cmp, t.right, key)
  }

  function Insert<K, V>(cmp: Cmp<K>, t: Tree<K, V>, e: Entry<K, V>): (r: Tree<K, V>)
    ensures r.Node?
  {
    if t.Nil? then Node(Nil, e, 1, Nil)
    else
      var c := cmp(e.key, t.entry.key);
      if c == 0 && e.Replaces() then t.(entry := e)
      else if c < 0 then Split(Skew(t.(left := Insert(cmp, t.left, e))))
      else Split(Skew(t.(right := Insert(cmp, t.right, e))))
  }

  function First<K, V>(t: Tree<K, V>): Entry<K, V>
    requires t.Node?
  {
    if t.left.Nil? then t.entry else First(t.left)
  }

  function Last<K, V>(t: Tree<K, V>): Entry<K, V>
    requires t.Node?
  {
    if t.right.Nil? then t.entry else Last(t.right)
  }

  function ClearFirst<K, V>(t: Tree<K, V>): (r: Tree<K, V>)
    requires t.Node?
    ensures r.Node? && Size(r) == Size(t)
  {
    if t.left.Nil? then t.(entry := t.entry.Cleared()) else t.(left := ClearFirst(t.left))
  }

  function ClearLast<K, V>(t: Tree<K, V>): (r: Tree<K, V>)
    requires t.Node?
    ensures r.Node? && Size(r) == Size(t)
  {
    if t.right.Nil? then t.(entry := t.entry.Cleared()) else t.(right := ClearLast(t.right))
  }

  /** Removal by key. An inner node takes over the entry of its predecessor (or
      successor), whose flags are cleared, and then that key is removed below. */
  function Remove<K, V>(cmp: Cmp<K>, t: Tree<K, V>, key: K): Tree<K, V>
    decreases Size(t)
  {
    if t.Nil? then Nil
    else
      var c := cmp(key, t.entry.key);
      if c < 0 then Rebalance(t.(left := Remove(cmp, t.left, key)))
      else if c > 0 then Rebalance(t.(right := Remove(cmp, t.right, key)))
      else if t.left.Nil? && t.right.Nil? then Nil
      else if t.left.Nil? then
        var next := First(t.right);
        Rebalance(t.(entry := next, right := Remove(cmp, ClearFirst(t.right), next.key)))
      else
        var prev := Last(t.left);
        Rebalance(t.(entry := prev, left := Remove(cmp, ClearLast(t.left), prev.key)))
  }

  // ---------- insertion ----------

  lemma {:induction false} StableInsertSplits<K(!new), V>(cmp: Cmp<K>, l: seq<Entry<K, V>>, m: Entry<K, V>,
      r: seq<Entry<K, V>>, e: Entry<K, V>)
    requires cmp(e.key, m.key) >= 0 ==> forall i :: 0 <= i < |l| ==> cmp(e.key, l[i].key) >= 0
    ensures StableInsert(cmp, l + [m] + r, e)
         == if cmp(e.key, m.key) < 0 then StableInsert(cmp, l, e) + [m] + r else l + [m] + StableInsert(cmp, r, e)
  {
    var s := l + [m] + r;
    if l == [] {
      assert s[1..] == r;
    } else {
      assert s[0] == l[0];
      assert s[1..] == l[1..] + [m] + r;
      StableInsertSplits(cmp, l[1..], m, r, e);
    }
  }

  // The position at which stable insertion puts the new entry.
  lemma {:induction false} StableInsertAt<K(!new), V>(cmp: Cmp<K>, s: seq<Entry<K, V>>, e: Entry<K, V>) returns (k: nat)
    ensures k <= |s| && StableInsert(cmp, s, e) == s[..k] + [e] + s[k..]
    ensures forall i :: 0 <= i < k ==> cmp(e.key, s[i].key) >= 0
    ensures k < |s| ==> cmp(e.key, s[k].key) < 0
  {
    if s == [] || cmp(e.key, s[0].key) < 0 {
      k := 0;
    } else {
      var k' := StableInsertAt(cmp, s[1..], e);
      k := k' + 1;
      assert forall i :: 0 < i < |s| ==> s[i] == s[1..][i - 1];
    }
  }

  lemma PartsAt<T>(l: seq<T>, m: T, r: seq<T>)
    ensures var s := l + [m] + r;
      && |s| == |l| + 1 + |r| && s[|l|] == m
      && (forall i :: 0 <= i < |l| ==> s[i] == l[i])
      && (forall i :: 0 <= i < |r| ==> s[|l| + 1 + i] == r[i])
  {
  }

  lemma SortedSplits<K(!new), V>(cmp: Cmp<K>, l: seq<Entry<K, V>>, m: Entry<K, V>, r: seq<Entry<K, V>>)
    requires Sorted(cmp, l + [m] + r)
    ensures Sorted(cmp, l) && Sorted(cmp, r)
    ensures forall i :: 0 <= i < |l| ==> cmp(l[i].key, m.key) <= 0
    ensures forall i :: 0 <= i < |r| ==> cmp(m.key, r[i].key) <= 0
  {
    var s := l + [m] + r;
    PartsAt(l, m, r);
    forall i, j | 0 <= i < j < |l| ensures cmp(l[i].key, l[j].key) <= 0 {
      assert s[i] == l[i] && s[j] == l[j];
    }
    forall i, j | 0 <= i < j < |r| ensures cmp(r[i].key, r[j].key) <= 0 {
      assert s[|l| + 1 + i] == r[i] && s[|l| + 1 + j] == r[j];
    }
    forall i | 0 <= i < |l| ensures cmp(l[i].key, m.key) <= 0 {
      assert s[i] == l[i] && s[|l|] == m;
    }
    forall i | 0 <= i < |r| ensures cmp(m.key, r[i].key) <= 0 {
      assert s[|l|] == m && s[|l| + 1 + i] == r[i];
    }
  }

  lemma SortedParts<K(!new), V>(cmp: Cmp<K>, t: Tree<K, V>)
    requires t.Node? && Sorted(cmp, InOrder(t))
    ensures Sorted(cmp, InOrder(t.left)) && Sorted(cmp, InOrder(t.right))
    ensures forall i :: 0 <= i < Size(t.left) ==> cmp(InOrder(t.left)[i].key, t.entry.key) <= 0
    ensures forall i :: 0 <= i < Size(t.right) ==> cmp(t.entry.key, InOrder(t.right)[i].key) <= 0
  {
    hide Sorted;
    SortedSplits(cmp, InOrder(t.left), t.entry, InOrder(t.right));
  }

  // A replacing insertion whose key is present overwrites the entry a lookup finds.
  ghost predicate Overwrites<K, V>(cmp: Cmp<K>, t: Tree<K, V>, e: Entry<K, V>) {
    e.Replaces() && Find(cmp, t, e.key).Node?
  }

  /** Insertion without an overwrite is stable insertion into the sorted sequence:
      the new entry stands after every entry whose key is not larger. */
  lemma {:induction false} InsertIsStable<K(!new), V>(cmp: Cmp<K>, t: Tree<K, V>, e: Entry<K, V>)
    requires TotalPreorder(cmp) && Sorted(cmp, InOrder(t)) && !Overwrites(cmp, t, e)
    ensures InOrder(Insert(cmp, t, e)) == StableInsert(cmp, InOrder(t), e)
  {
    hide TotalPreorder;
    if t.Node? {
      SortedParts(cmp, t);
      var l := InOrder(t.left);
      forall i | 0 <= i < |l| && cmp(e.key, t.entry.key) >= 0 ensures cmp(e.key, l[i].key) >= 0 {
        Chain(cmp, l[i].key, t.entry.key, e.key);
        Chain(cmp, e.key, t.entry.key, e.key);
        Chain(cmp, e.key, l[i].key, e.key);
      }
      StableInsertSplits(cmp, InOrder(t.left), t.entry, InOrder(t.right), e);
      var below;
      if cmp(e.key, t.entry.key) < 0 {
        InsertIsStable(cmp, t.left, e);
        below := t.(left := Insert(cmp, t.left, e));
      } else {
        assert e.Replaces() ==> cmp(e.key, t.entry.key) > 0;
        InsertIsStable(cmp, t.right, e);
        below := t.(right := Insert(cmp, t.right, e));
      }
      SkewInOrder(below);
      SplitInOrder(Skew(below));
    }
  }

  lemma Chain<K(!new)>(cmp: Cmp<K>, a: K, b: K, c: K)
    requires TotalPreorder(cmp)
    ensures cmp(a, b) <= 0 && cmp(b, c) <= 0 ==> cmp(a, c) <= 0
    ensures cmp(a, b) < 0 && cmp(b, c) <= 0 ==> cmp(a, c) < 0
    ensures cmp(a, b) <= 0 && cmp(b, c) < 0 ==> cmp(a, c) < 0
    ensures cmp(a, b) < 0 <==> cmp(b, a) > 0
    ensures cmp(a, b) == 0 <==> cmp(b, a) == 0
  {
    var _ := cmp(b, a);
    var _ := cmp(c, b);
    var _ := cmp(c, a);
  }

  lemma SortedJoin<K(!new), V>(cmp: Cmp<K>, l: seq<Entry<K, V>>, e: Entry<K, V>, r: seq<Entry<K, V>>)
    requires TotalPreorder(cmp) && Sorted(cmp, l) && Sorted(cmp, r)
    requires forall i :: 0 <= i < |l| ==> cmp(l[i].key, e.key) <= 0
    requires forall i :: 0 <= i < |r| ==> cmp(e.key, r[i].key) <= 0
    ensures Sorted(cmp, l + [e] + r)
  {
    hide TotalPreorder;
    var s := l + [e] + r;
    forall i, j | 0 <= i < j < |s| ensures cmp(s[i].key, s[j].key) <= 0 {
      if i < |l| < j {
        Chain(cmp, l[i].key, e.key, r[j - |l| - 1].key);
      }
    }
  }

  lemma StableInsertSorted<K(!new), V>(cmp: Cmp<K>, s: seq<Entry<K, V>>, e: Entry<K, V>)
    requires TotalPreorder(cmp) && Sorted(cmp, s)
    ensures Sorted(cmp, StableInsert(cmp, s, e))
  {
    hide TotalPreorder;
    var k := StableInsertAt(cmp, s, e);
    forall i | 0 <= i < k ensures cmp(s[i].key, e.key) <= 0 {
      Chain(cmp, s[i].key, e.key, e.key);
    }
    forall i | k <= i < |s| ensures cmp(e.key, s[i].key) <= 0 {
      Chain(cmp, e.key, s[k].key, s[i].key);
    }
    var l, r := s[..k], s[k..];
    assert forall i :: 0 <= i < |r| ==> r[i] == s[k + i];
    SortedJoin(cmp, l, e, r);
  }

  lemma StableInsertAdds<K(!new), V>(cmp: Cmp<K>, s: seq<Entry<K, V>>, e: Entry<K, V>)
    ensures multiset(StableInsert(cmp, s, e)) == multiset(s) + multiset{e}
  {
    var k := StableInsertAt(cmp, s, e);
    assert s == s[..k] + s[k..];
  }

  /** Insertion keeps the level rules, and the root rises by at most one level. */
  lemma {:induction false} InsertKeepsAA<K(!new), V>(cmp: Cmp<K>, t: Tree<K, V>, e: Entry<K, V>)
    requires AA(t)
    ensures var r := Insert(cmp, t, e);
      && AA(r) && Level(t) <= Level(r) <= Level(t) + 1
      && (Level(r) > Level(t) ==> !Horizontal(r) && (t.Node? ==> Horizontal(t)))
  {
    if t.Node? {
      var c := cmp(e.key, t.entry.key);
      if c == 0 && e.Replaces() {
      } else if c < 0 {
        InsertKeepsAA(cmp, t.left, e);
        RestoreAfterLeft(t.(left := Insert(cmp, t.left, e)));
      } else {
        InsertKeepsAA(cmp, t.right, e);
        RestoreAfterRight(t.(right := Insert(cmp, t.right, e)), t);
      }
    }
  }

  // One skew and one split repair a node whose left child rose to its level.
  lemma RestoreAfterLeft<K(!new), V>(t: Tree<K, V>)
    requires t.Node? && AA(t.left) && AA(t.right) && 1 <= t.level
    requires t.level - 1 <= Level(t.left) <= t.level
    requires Level(t.left) == t.level ==> !Horizontal(t.left)
    requires t.level - 1 <= Level(t.right) <= t.level
    requires t.right.Node? ==> Level(t.right.right) < t.level
    ensures var r := Split(Skew(t));
      && AA(r) && t.level <= Level(r) <= t.level + 1
      && (Level(r) > t.level ==> !Horizontal(r) && Horizontal(t))
  {
    if Level(t.left) == t.level {
      var Node(ll, lx, n, lr) := t.left;
      assert Skew(t) == Node(ll, lx, n, t.(left := lr));
      assert AA(t.(left := lr)) by {
        assert AA(lr);
      }
      if Horizontal(t) {
        assert AA(Node(ll, lx, n, lr));
        assert Split(Skew(t)) == Node(Node(ll, lx, n, lr), t.entry, n + 1, t.right);
      }
    }
  }

  // The same for a right child; `before` is the node as it stood.
  lemma RestoreAfterRight<K(!new), V>(t: Tree<K, V>, before: Tree<K, V>)
    requires before.Node? && AA(before)
    requires t.Node? && t == before.(right := t.right)
    requires AA(t.right) && Level(before.right) <= Level(t.right) <= Level(before.right) + 1
    requires Level(t.right) > Level(before.right) ==>
      !Horizontal(t.right) && (before.right.Node? ==> Horizontal(before.right))
    ensures var r := Split(Skew(t));
      && AA(r) && t.level <= Level(r) <= t.level + 1
      && (Level(r) > t.level ==> !Horizontal(r) && Horizontal(before))
  {
    assert Skew(t) == t;
    if Level(before.right) == t.level {
      assert !Horizontal(before.right);
      SplitTop(t.left, t.entry, t.level, t.right);
    }
  }

  // ---------- lookup ----------

  /** A lookup finds a node exactly when some entry has an equal key. */
  lemma {:induction false} FindIffPresent<K(!new), V>(cmp: Cmp<K>, t: Tree<K, V>, key: K)
    requires TotalPreorder(cmp) && Sorted(cmp, InOrder(t))
    ensures Find(cmp, t, key).Node? <==> HasKey(cmp, InOrder(t), key)
    ensures Find(cmp, t, key).Node? ==> cmp(key, Find(cmp, t, key).entry.key) == 0
  {
    hide TotalPreorder;
    if t.Node? {
      SortedParts(cmp, t);
      var l, r, s := InOrder(t.left), InOrder(t.right), InOrder(t);
      var c := cmp(key, t.entry.key);
      assert s[|l|] == t.entry;
      assert forall i :: 0 <= i < |l| ==> s[i] == l[i];
      assert forall i :: |l| < i < |s| ==> s[i] == r[i - |l| - 1];
      if c < 0 {
        FindIffPresent(cmp, t.left, key);
        forall i | 0 <= i < |r| ensures cmp(key, r[i].key) != 0 {
          Chain(cmp, key, t.entry.key, r[i].key);
        }
      } else if c > 0 {
        FindIffPresent(cmp, t.right, key);
        forall i | 0 <= i < |l| ensures cmp(key, l[i].key) != 0 {
          Chain(cmp, l[i].key, t.entry.key, key);
          Chain(cmp, key, t.entry.key, key);
          Chain(cmp, key, l[i].key, key);
        }
        forall i | 0 <= i < |r| && cmp(key, r[i].key) == 0 ensures cmp(key, s[|l| + 1 + i].key) == 0 {
        }
      }
    }
  }

  function Pow2(n: nat): (p: nat)
    ensures p >= 1
  {
    if n == 0 then 1 else 2 * Pow2(n - 1)
  }

  lemma {:induction false} Pow2Monotone(a: nat, b: nat)
    requires a <= b
    ensures Pow2(a) <= Pow2(b)
  {
    if a < b {
      Pow2Monotone(a, b - 1);
    }
  }

  lemma {:induction false} LevelBounds<K(!new), V>(t: Tree<K, V>)
    requires AA(t)
    ensures 0 <= Level(t) && Size(t) >= Pow2(Level(t)) - 1 && Height(t) <= 2 * Level(t)
    ensures t.Node? && !Horizontal(t) ==> Height(t) <= 2 * Level(t) - 1
  {
    if t.Node? {
      LevelBounds(t.left);
      LevelBounds(t.right);
      Pow2Monotone(t.level - 1, Level(t.right));
      assert Pow2(t.level) == 2 * Pow2(t.level - 1);
      assert Size(t) == 1 + Size(t.left) + Size(t.right);
      assert t.right.Node? && Level(t.right) == t.level ==> !Horizontal(t.right);
      hide *;
    }
  }

  lemma {:induction false} VisitsAtMostHeight<K(!new), V>(cmp: Cmp<K>, t: Tree<K, V>, key: K)
    ensures Visits(cmp, t, key) <= Height(t)
  {
    if t.Node? {
      VisitsAtMostHeight(cmp, t.left, key);
      VisitsAtMostHeight(cmp, t.right, key);
    }
  }

  /** A lookup among n entries makes at most 2 log2(n + 1) comparisons: if it makes
      v, then 2 to the power v/2, rounded up, is at most n + 1. */
  lemma {:induction false} SearchBound<K(!new), V>(cmp: Cmp<K>, t: Tree<K, V>, key: K)
    requires AA(t)
    ensures Pow2((Visits(cmp, t, key) + 1) / 2) <= Size(t) + 1
  {
    LevelBounds(t);
    VisitsAtMostHeight(cmp, t, key);
    Pow2Monotone((Visits(cmp, t, key) + 1) / 2, Level(t));
  }

  // ---------- removal: the shape ----------

  lemma {:induction false} ClearLastFacts<K(!new), V>(t: Tree<K, V>)
    requires t.Node?
    ensures var s := InOrder(t);
      Last(t) == s[|s| - 1] && InOrder(ClearLast(t)) == s[..|s| - 1] + [Last(t).Cleared()]
    ensures AA(t) ==> AA(ClearLast(t))
    ensures Level(ClearLast(t)) == Level(t) && Level(ClearLast(t).right) == Level(t.right)
    ensures Horizontal(ClearLast(t)) == Horizontal(t)
  {
    if t.right.Node? {
      ClearLastFacts(t.right);
    }
  }

  lemma FirstSplits<T>(l: seq<T>, l': seq<T>, m: T, r: seq<T>)
    requires |l| == |l'| > 0 && l' == [l'[0]] + l[1..]
    ensures l' + [m] + r == [l'[0]] + (l + [m] + r)[1..] && (l + [m] + r)[0] == l[0]
  {
  }

  lemma UpdateSplits<T>(l: seq<T>, m: T, r: seq<T>, i: nat, e: T)
    requires i < |l| + 1 + |r|
    ensures (l + [m] + r)[i := e] ==
      if i < |l| then l[i := e] + [m] + r else if i == |l| then l + [e] + r else l + [m] + r[i - |l| - 1 := e]
  {
  }

  lemma {:induction false} ClearFirstFacts<K(!new), V>(t: Tree<K, V>)
    requires t.Node?
    ensures var s := InOrder(t);
      First(t) == s[0] && InOrder(ClearFirst(t)) == [First(t).Cleared()] + s[1..]
    ensures AA(t) ==> AA(ClearFirst(t))
    ensures Level(ClearFirst(t)) == Level(t) && Level(ClearFirst(t).right) == Level(t.right)
    ensures Horizontal(ClearFirst(t)) == Horizontal(t)
  {
    if t.left.Node? {
      ClearFirstFacts(t.left);
      assert ClearFirst(t) == t.(left := ClearFirst(t.left));
      FirstSplits(InOrder(t.left), InOrder(ClearFirst(t.left)), t.entry, InOrder(t.right));
    }
  }

  // What removal guarantees about a subtree, and what its parent needs.
  ghost predicate Shrunk<K, V>(t: Tree<K, V>, r: Tree<K, V>) {
    && AA(r) && Level(t) - 1 <= Level(r) <= Level(t)
    && (Level(r) == Level(t) && Horizontal(r) ==> Horizontal(t))
  }

  /** Removal keeps the level rules, and the root drops by at most one level. */
  lemma {:induction false} RemoveKeepsAA<K(!new), V>(cmp: Cmp<K>, t: Tree<K, V>, key: K)
    requires AA(t)
    ensures Shrunk(t, Remove(cmp, t, key))
    decreases Size(t)
  {
    hide Rebalance, InOrder, First, Last, ClearFirst, ClearLast;
    if t.Node? {
      var c := cmp(key, t.entry.key);
      if c < 0 {
        RemoveKeepsAA(cmp, t.left, key);
        RebalanceAfterLeft(t.(left := Remove(cmp, t.left, key)));
      } else if c > 0 {
        RemoveKeepsAA(cmp, t.right, key);
        RebalanceAfterRight(t.(right := Remove(cmp, t.right, key)));
      } else if t.left.Nil? && t.right.Nil? {
      } else if t.left.Nil? {
        var right, next := ClearFirst(t.right), First(t.right);
        ClearFirstFacts(t.right);
        RemoveKeepsAA(cmp, right, next.key);
        RebalanceAfterRight(t.(entry := next, right := Remove(cmp, right, next.key)));
      } else {
        var left, prev := ClearLast(t.left), Last(t.left);
        ClearLastFacts(t.left);
        RemoveKeepsAA(cmp, left, prev.key);
        RebalanceAfterLeft(t.(entry := prev, left := Remove(cmp, left, prev.key)));
      }
    }
  }

  /** Removing an absent key changes nothing, not even the shape. */
  lemma {:induction false} RemoveAbsent<K(!new), V>(cmp: Cmp<K>, t: Tree<K, V>, key: K)
    requires AA(t) && Find(cmp, t, key).Nil?
    ensures Remove(cmp, t, key) == t
  {
    if t.Node? {
      UnchangedByRebalance(t);
      if cmp(key, t.entry.key) < 0 {
        RemoveAbsent(cmp, t.left, key);
      } else {
        RemoveAbsent(cmp, t.right, key);
      }
    }
  }

  // ---------- removal: the contents ----------

  // The node a removal rebalances on its way up, one per branch of the code.
  function Trimmed<K, V>(cmp: Cmp<K>, t: Tree<K, V>, key: K): (r: Tree<K, V>)
    requires t.Node? && !(cmp(key, t.entry.key) == 0 && t.left.Nil? && t.right.Nil?)
    ensures r.Node? && Remove(cmp, t, key) == Rebalance(r)
  {
    var c := cmp(key, t.entry.key);
    if c < 0 then t.(left := Remove(cmp, t.left, key))
    else if c > 0 then t.(right := Remove(cmp, t.right, key))
    else if t.left.Node? then t.(entry := Last(t.left), left := Remove(cmp, ClearLast(t.left), Last(t.left).key))
    else t.(entry := First(t.right), right := Remove(cmp, ClearFirst(t.right), First(t.right).key))
  }

  lemma NodeInOrder<K(!new), V>(t: Tree<K, V>)
    requires t.Node?
    ensures InOrder(t) == InOrder(t.left) + [t.entry] + InOrder(t.right)
    ensures t.left.Nil? ==> InOrder(t) == [t.entry] + InOrder(t.right)
  {
  }

  lemma RemoveInOrder<K(!new), V>(cmp: Cmp<K>, t: Tree<K, V>, key: K)
    requires t.Node?
    ensures var c := cmp(key, t.entry.key);
      var l, r := InOrder(t.left), InOrder(t.right);
      InOrder(Remove(cmp, t, key)) ==
        if c < 0 then InOrder(Remove(cmp, t.left, key)) + [t.entry] + r
        else if c > 0 then l + [t.entry] + InOrder(Remove(cmp, t.right, key))
        else if t.left.Node? then InOrder(Remove(cmp, ClearLast(t.left), Last(t.left).key)) + [Last(t.left)] + r
        else if t.right.Node? then [First(t.right)] + InOrder(Remove(cmp, ClearFirst(t.right), First(t.right).key))
        else []
  {
    var c := cmp(key, t.entry.key);
    if c == 0 && t.left.Nil? && t.right.Nil? {
      assert Remove(cmp, t, key) == Nil;
    } else {
      hide InOrder, Remove, Rebalance, First, Last, ClearFirst, ClearLast, Size;
      var r := Trimmed(cmp, t, key);
      RebalanceInOrder(r);
      NodeInOrder(r);
    }
  }

  lemma WithoutSplits<T>(l: seq<T>, m: T, r: seq<T>, i: nat)
    requires i < |l| + 1 + |r|
    ensures Without(l + [m] + r, i) ==
      if i < |l| then Without(l, i) + [m] + r else if i == |l| then l + r else l + [m] + Without(r, i - |l| - 1)
  {
  }

  // With distinct keys a lookup of an entry's key finds that very entry.
  lemma {:induction false} FindsOwn<K(!new), V>(cmp: Cmp<K>, t: Tree<K, V>, i: nat)
    requires TotalPreorder(cmp) && Sorted(cmp, InOrder(t)) && DistinctKeys(cmp, InOrder(t)) && i < Size(t)
    ensures Find(cmp, t, InOrder(t)[i].key).Node? && FindIndex(cmp, t, InOrder(t)[i].key) == i
  {
    hide TotalPreorder;
    var key := InOrder(t)[i].key;
    FindIffPresent(cmp, t, key);
    Chain(cmp, key, key, key);
    assert HasKey(cmp, InOrder(t), key);
    var j := FindIndex(cmp, t, key);
    Chain(cmp, key, InOrder(t)[j].key, key);
  }

  lemma ClearedKeys<K(!new), V>(cmp: Cmp<K>, s: seq<Entry<K, V>>, r: seq<Entry<K, V>>)
    requires |s| == |r| && forall i :: 0 <= i < |s| ==> s[i].key == r[i].key
    ensures Sorted(cmp, s) ==> Sorted(cmp, r)
    ensures DistinctKeys(cmp, s) ==> DistinctKeys(cmp, r)
  {
  }

  /** With distinct keys, removal takes out exactly the entry a lookup finds. */
  lemma {:induction false} RemoveExact<K(!new), V>(cmp: Cmp<K>, t: Tree<K, V>, key: K)
    requires TotalPreorder(cmp) && Sorted(cmp, InOrder(t)) && DistinctKeys(cmp, InOrder(t))
    requires Find(cmp, t, key).Node?
    ensures InOrder(Remove(cmp, t, key)) == Without(InOrder(t), FindIndex(cmp, t, key))
    decreases Size(t), 0
  {
    hide TotalPreorder, Sorted, DistinctKeys, Rebalance;
    RemoveInOrder(cmp, t, key);
    SortedParts(cmp, t);
    DistinctParts(cmp, t);
    WithoutSplits(InOrder(t.left), t.entry, InOrder(t.right), FindIndex(cmp, t, key));
    var c := cmp(key, t.entry.key);
    if c < 0 {
      RemoveExact(cmp, t.left, key);
    } else if c > 0 {
      RemoveExact(cmp, t.right, key);
    } else if t.left.Node? {
      RemoveLastExact(cmp, t.left);
    } else if t.right.Node? {
      RemoveFirstExact(cmp, t.right);
    }
  }

  lemma {:induction false} RemoveFirstExact<K(!new), V>(cmp: Cmp<K>, t: Tree<K, V>)
    requires t.Node? && TotalPreorder(cmp) && Sorted(cmp, InOrder(t)) && DistinctKeys(cmp, InOrder(t))
    ensures [First(t)] + InOrder(Remove(cmp, ClearFirst(t), First(t).key)) == InOrder(t)
    decreases Size(t), 1
  {
    hide TotalPreorder, Sorted, DistinctKeys, Remove, InOrder, Find, FindIndex, First, Last, ClearFirst, ClearLast,
      Without;
    var right, s := ClearFirst(t), InOrder(t);
    ClearFirstFacts(t);
    var c := InOrder(right);
    ClearedKeys(cmp, s, c);
    FindsOwn(cmp, right, 0);
    RemoveExact(cmp, right, First(t).key);
    FirstOff(c, s);
  }

  lemma FirstOff<T>(c: seq<T>, s: seq<T>)
    requires |c| == |s| > 0 && forall i :: 1 <= i < |s| ==> c[i] == s[i]
    ensures [s[0]] + Without(c, 0) == s
  {
  }

  lemma {:induction false} RemoveLastExact<K(!new), V>(cmp: Cmp<K>, t: Tree<K, V>)
    requires t.Node? && TotalPreorder(cmp) && Sorted(cmp, InOrder(t)) && DistinctKeys(cmp, InOrder(t))
    ensures InOrder(Remove(cmp, ClearLast(t), Last(t).key)) + [Last(t)] == InOrder(t)
    decreases Size(t), 1
  {
    hide TotalPreorder, Sorted, DistinctKeys, Remove, InOrder, Find, FindIndex, First, Last, ClearFirst, ClearLast;
    var left, s := ClearLast(t), InOrder(t);
    ClearLastFacts(t);
    var c, n := InOrder(left), |s| - 1;
    ClearedKeys(cmp, s, c);
    FindsOwn(cmp, left, n);
    RemoveExact(cmp, left, Last(t).key);
    assert Without(c, n) == c[..n] == s[..n];
  }

  lemma DistinctParts<K(!new), V>(cmp: Cmp<K>, t: Tree<K, V>)
    requires t.Node? && DistinctKeys(cmp, InOrder(t))
    ensures DistinctKeys(cmp, InOrder(t.left)) && DistinctKeys(cmp, InOrder(t.right))
  {
    var l, r, s := InOrder(t.left), InOrder(t.right), InOrder(t);
    hide InOrder, DistinctKeys;
    DistinctSlice(cmp, s, 0, l);
    DistinctSlice(cmp, s, |l| + 1, r);
  }

  lemma DistinctSlice<K(!new), V>(cmp: Cmp<K>, s: seq<Entry<K, V>>, at: nat, part: seq<Entry<K, V>>)
    requires DistinctKeys(cmp, s) && at + |part| <= |s| && s[at..at + |part|] == part
    ensures DistinctKeys(cmp, part)
  {
    forall i, j | 0 <= i < j < |part| ensures cmp(part[i].key, part[j].key) != 0 {
      var x, y := at + i, at + j;
      assert part[i] == s[x] && part[j] == s[y];
    }
  }

  lemma SameKeysTrans<K(!new), V>(cmp: Cmp<K>, a: seq<Entry<K, V>>, b: seq<Entry<K, V>>, c: seq<Entry<K, V>>)
    requires TotalPreorder(cmp) && SameKeys(cmp, a, b) && SameKeys(cmp, b, c)
    ensures SameKeys(cmp, a, c)
  {
    hide TotalPreorder;
    forall i | 0 <= i < |a| ensures cmp(a[i].key, c[i].key) == 0 {
      Chain(cmp, a[i].key, b[i].key, c[i].key);
      Chain(cmp, c[i].key, b[i].key, a[i].key);
      Chain(cmp, b[i].key, a[i].key, a[i].key);
      Chain(cmp, c[i].key, b[i].key, b[i].key);
      Chain(cmp, a[i].key, c[i].key, c[i].key);
    }
  }

  // In a sorted run, dropping one of the entries equal to an end and putting that
  // end back leaves the same keys in the same places.
  lemma RunShift<K(!new), V>(cmp: Cmp<K>, s: seq<Entry<K, V>>, i: nat, atEnd: bool)
    requires TotalPreorder(cmp) && Sorted(cmp, s) && i < |s|
    requires cmp(s[if atEnd then |s| - 1 else 0].key, s[i].key) == 0
    ensures atEnd ==> SameKeys(cmp, Without(s, i) + [s[|s| - 1]], s)
    ensures !atEnd ==> SameKeys(cmp, [s[0]] + Without(s, i), s)
  {
    hide TotalPreorder;
    var n := |s| - 1;
    var r := if atEnd then Without(s, i) + [s[n]] else [s[0]] + Without(s, i);
    forall j | 0 <= j <= n ensures cmp(r[j].key, s[j].key) == 0 {
      Chain(cmp, s[j].key, s[j].key, s[j].key);
      if atEnd && i <= j < n {
        assert r[j] == s[j + 1];
        Chain(cmp, s[j + 1].key, s[n].key, s[i].key);
        Chain(cmp, s[j + 1].key, s[i].key, s[j].key);
        Chain(cmp, s[j].key, s[j + 1].key, s[j].key);
        Chain(cmp, s[n].key, s[n].key, s[n].key);
        Chain(cmp, s[i].key, s[i].key, s[i].key);
      } else if !atEnd && 0 < j <= i {
        assert r[j] == s[j - 1];
        Chain(cmp, s[j].key, s[i].key, s[0].key);
        Chain(cmp, s[j].key, s[0].key, s[j - 1].key);
        Chain(cmp, s[j].key, s[j - 1].key, s[j].key);
        Chain(cmp, s[0].key, s[i].key, s[0].key);
        Chain(cmp, s[0].key, s[0].key, s[0].key);
        Chain(cmp, s[i].key, s[i].key, s[i].key);
      } else {
        assert r[j] == s[j];
        Chain(cmp, s[j].key, s[j].key, s[j].key);
        Reflexive(cmp, s[j].key);
      }
    }
  }

  lemma Reflexive<K(!new)>(cmp: Cmp<K>, k: K)
    requires TotalPreorder(cmp)
    ensures cmp(k, k) == 0
  {
  }

  lemma FindsEqual<K(!new), V>(cmp: Cmp<K>, t: Tree<K, V>, i: nat)
    requires TotalPreorder(cmp) && Sorted(cmp, InOrder(t)) && i < Size(t)
    ensures Find(cmp, t, InOrder(t)[i].key).Node?
    ensures cmp(InOrder(t)[i].key, InOrder(t)[FindIndex(cmp, t, InOrder(t)[i].key)].key) == 0
  {
    hide TotalPreorder;
    var key := InOrder(t)[i].key;
    Reflexive(cmp, key);
    FindIffPresent(cmp, t, key);
    assert HasKey(cmp, InOrder(t), key);
  }

  /** With duplicates, removal still takes out one key equal to the given one: the
      remaining keys are those of the sequence without the entry found. */
  lemma {:induction false} RemoveKeys<K(!new), V>(cmp: Cmp<K>, t: Tree<K, V>, key: K)
    requires TotalPreorder(cmp) && Sorted(cmp, InOrder(t)) && Find(cmp, t, key).Node?
    ensures SameKeys(cmp, InOrder(Remove(cmp, t, key)), Without(InOrder(t), FindIndex(cmp, t, key)))
    decreases Size(t), 0
  {
    hide TotalPreorder, Sorted, SameKeys, Rebalance, Remove, First, Last, ClearFirst, ClearLast, Size;
    RemoveInOrder(cmp, t, key);
    SortedParts(cmp, t);
    var l, r := InOrder(t.left), InOrder(t.right);
    WithoutSplits(l, t.entry, r, FindIndex(cmp, t, key));
    var c := cmp(key, t.entry.key);
    if c < 0 {
      RemoveKeys(cmp, t.left, key);
      SameKeysJoin(cmp, InOrder(Remove(cmp, t.left, key)), Without(l, FindIndex(cmp, t.left, key)), t.entry, r, r);
    } else if c > 0 {
      RemoveKeys(cmp, t.right, key);
      SameKeysJoin(cmp, l, l, t.entry, InOrder(Remove(cmp, t.right, key)), Without(r, FindIndex(cmp, t.right, key)));
    } else if t.left.Node? {
      RemoveLastKeys(cmp, t.left);
      SameKeysAppend(cmp, InOrder(Remove(cmp, ClearLast(t.left), Last(t.left).key)) + [Last(t.left)], l, r);
    } else if t.right.Node? {
      RemoveFirstKeys(cmp, t.right);
      assert l + r == r;
    } else {
      SelfSameKeys<K, V>(cmp, []);
      assert l + r == [];
    }
  }

  lemma SelfSameKeys<K(!new), V>(cmp: Cmp<K>, s: seq<Entry<K, V>>)
    requires TotalPreorder(cmp)
    ensures SameKeys(cmp, s, s)
  {
    hide TotalPreorder;
    forall i | 0 <= i < |s| ensures cmp(s[i].key, s[i].key) == 0 {
      Reflexive(cmp, s[i].key);
    }
  }

  lemma SameKeysAppend<K(!new), V>(cmp: Cmp<K>, a: seq<Entry<K, V>>, a': seq<Entry<K, V>>, b: seq<Entry<K, V>>)
    requires TotalPreorder(cmp) && SameKeys(cmp, a, a')
    ensures SameKeys(cmp, a + b, a' + b)
  {
    hide TotalPreorder;
    SelfSameKeys(cmp, b);
    var s, s' := a + b, a' + b;
    forall i | 0 <= i < |s| ensures cmp(s[i].key, s'[i].key) == 0 {
      if i < |a| {
        assert cmp(a[i].key, a'[i].key) == 0;
      } else {
        assert cmp(b[i - |a|].key, b[i - |a|].key) == 0;
      }
    }
  }

  lemma SameKeysPrepend<K(!new), V>(cmp: Cmp<K>, m: Entry<K, V>, b: seq<Entry<K, V>>, b': seq<Entry<K, V>>)
    requires TotalPreorder(cmp) && SameKeys(cmp, b, b')
    ensures SameKeys(cmp, [m] + b, [m] + b')
  {
    hide TotalPreorder;
    Reflexive(cmp, m.key);
  }

  lemma SameKeysJoin<K(!new), V>(cmp: Cmp<K>, a: seq<Entry<K, V>>, a': seq<Entry<K, V>>, m: Entry<K, V>,
                                 b: seq<Entry<K, V>>, b': seq<Entry<K, V>>)
    requires TotalPreorder(cmp) && (a == a' || SameKeys(cmp, a, a')) && (b == b' || SameKeys(cmp, b, b'))
    ensures SameKeys(cmp, a + [m] + b, a' + [m] + b')
  {
    hide TotalPreorder;
    var s, s' := a + [m] + b, a' + [m] + b';
    assert |s| == |s'|;
    forall i | 0 <= i < |s| ensures cmp(s[i].key, s'[i].key) == 0 {
      Reflexive(cmp, s[i].key);
      if i < |a| {
        assert s[i] == a[i] && s'[i] == a'[i];
      } else if i > |a| {
        assert s[i] == b[i - |a| - 1] && s'[i] == b'[i - |a| - 1];
      }
    }
  }

  lemma {:induction false} RemoveLastKeys<K(!new), V>(cmp: Cmp<K>, t: Tree<K, V>)
    requires t.Node? && TotalPreorder(cmp) && Sorted(cmp, InOrder(t))
    ensures SameKeys(cmp, InOrder(Remove(cmp, ClearLast(t), Last(t).key)) + [Last(t)], InOrder(t))
    decreases Size(t), 1
  {
    hide TotalPreorder, Sorted, SameKeys, Remove, Rebalance, InOrder, Find, FindIndex, First, Last, ClearFirst,
      ClearLast;
    var left, prev := ClearLast(t), Last(t);
    var s := InOrder(left);
    ClearLastFacts(t);
    ClearedKeys(cmp, InOrder(t), s);
    FindsEqual(cmp, left, |s| - 1);
    var i := FindIndex(cmp, left, prev.key);
    RunShift(cmp, s, i, true);
    RemoveKeys(cmp, left, prev.key);
    var rest := InOrder(Remove(cmp, left, prev.key));
    SameKeysAppend(cmp, rest, Without(s, i), [prev]);
    KeysEqual(cmp, rest + [prev], Without(s, i) + [prev], Without(s, i) + [s[|s| - 1]]);
    SameKeysTrans(cmp, rest + [prev], Without(s, i) + [s[|s| - 1]], s);
    KeysEqual(cmp, rest + [prev], s, InOrder(t));
  }

  lemma {:induction false} RemoveFirstKeys<K(!new), V>(cmp: Cmp<K>, t: Tree<K, V>)
    requires t.Node? && TotalPreorder(cmp) && Sorted(cmp, InOrder(t))
    ensures SameKeys(cmp, [First(t)] + InOrder(Remove(cmp, ClearFirst(t), First(t).key)), InOrder(t))
    decreases Size(t), 1
  {
    hide TotalPreorder, Sorted, SameKeys, Remove, Rebalance, InOrder, Find, FindIndex, First, Last, ClearFirst,
      ClearLast;
    var right, next := ClearFirst(t), First(t);
    var s := InOrder(right);
    ClearFirstFacts(t);
    ClearedKeys(cmp, InOrder(t), s);
    FindsEqual(cmp, right, 0);
    var i := FindIndex(cmp, right, next.key);
    RunShift(cmp, s, i, false);
    RemoveKeys(cmp, right, next.key);
    var rest := InOrder(Remove(cmp, right, next.key));
    SameKeysPrepend(cmp, next, rest, Without(s, i));
    KeysEqual(cmp, [next] + rest, [next] + Without(s, i), [s[0]] + Without(s, i));
    SameKeysTrans(cmp, [next] + rest, [s[0]] + Without(s, i), s);
    KeysEqual(cmp, [next] + rest, s, InOrder(t));
  }

  lemma KeysEqual<K(!new), V>(cmp: Cmp<K>, a: seq<Entry<K, V>>, b: seq<Entry<K, V>>, c: seq<Entry<K, V>>)
    requires SameKeys(cmp, a, b) && |b| == |c| && forall i :: 0 <= i < |b| ==> b[i].key == c[i].key
    ensures SameKeys(cmp, a, c)
  {
  }

  lemma SameKeysSorted<K(!new), V>(cmp: Cmp<K>, s: seq<Entry<K, V>>, r: seq<Entry<K, V>>)
    requires TotalPreorder(cmp) && SameKeys(cmp, r, s) && Sorted(cmp, s)
    ensures Sorted(cmp, r)
  {
    hide TotalPreorder;
    forall i, j | 0 <= i < j < |r| ensures cmp(r[i].key, r[j].key) <= 0 {
      Chain(cmp, r[i].key, s[i].key, s[j].key);
      Chain(cmp, r[j].key, s[j].key, r[j].key);
      Chain(cmp, r[i].key, s[j].key, r[j].key);
    }
  }

  lemma WithoutSorted<K(!new), V>(cmp: Cmp<K>, s: seq<Entry<K, V>>, i: nat)
    requires Sorted(cmp, s) && i < |s|
    ensures Sorted(cmp, Without(s, i))
  {
    var w := Without(s, i);
    forall x, y | 0 <= x < y < |w| ensures cmp(w[x].key, w[y].key) <= 0 {
      var x', y' := if x < i then x else x + 1, if y < i then y else y + 1;
      assert w[x] == s[x'] && w[y] == s[y'];
    }
  }

  /** Removal keeps the sequence sorted, present key or not, duplicates or not. */
  lemma RemoveKeepsSorted<K(!new), V>(cmp: Cmp<K>, t: Tree<K, V>, key: K)
    requires TotalPreorder(cmp) && Sorted(cmp, InOrder(t)) && AA(t)
    ensures Sorted(cmp, InOrder(Remove(cmp, t, key)))
  {
    hide TotalPreorder;
    if Find(cmp, t, key).Node? {
      RemoveKeys(cmp, t, key);
      WithoutSorted(cmp, InOrder(t), FindIndex(cmp, t, key));
      SameKeysSorted(cmp, Without(InOrder(t), FindIndex(cmp, t, key)), InOrder(Remove(cmp, t, key)));
    } else {
      RemoveAbsent(cmp, t, key);
    }
  }

  // ---------- removal: exactly when values survive ----------

  /** A lookup of the predecessor's key, in the left subtree of the node to be
      removed, reaches the predecessor itself and not an equal key above it. */
  predicate PredecessorInSight<K, V>(cmp: Cmp<K>, n: Tree<K, V>)
    requires n.Node?
  {
    n.left.Node? ==> Find(cmp, n.left, Last(n.left).key).Node? && Find(cmp, n.left, Last(n.left).key).right.Nil?
  }

  ghost predicate SamePair<K, V>(a: Entry<K, V>, b: Entry<K, V>) {
    a.key == b.key && a.value == b.value
  }

  ghost predicate DistinctPairs<K, V>(s: seq<Entry<K, V>>) {
    forall i, j :: 0 <= i < j < |s| ==> !SamePair(s[i], s[j])
  }

  lemma LastIsLargest<K(!new), V>(cmp: Cmp<K>, t: Tree<K, V>)
    requires TotalPreorder(cmp) && t.Node? && Sorted(cmp, InOrder(t))
    ensures cmp(Last(t).key, t.entry.key) >= 0
    ensures cmp(Last(t).key, t.entry.key) > 0 ==> t.right.Node?
  {
    hide TotalPreorder;
    ClearLastFacts(t);
    Reflexive(cmp, t.entry.key);
    var s := InOrder(t);
    assert s[Size(t.left)] == t.entry;
    Chain(cmp, t.entry.key, s[|s| - 1].key, t.entry.key);
  }

  lemma {:induction false} SpineExact<K(!new), V>(cmp: Cmp<K>, t: Tree<K, V>)
    requires TotalPreorder(cmp) && t.Node? && AA(t) && Sorted(cmp, InOrder(t))
    requires Find(cmp, t, Last(t).key).Node? && Find(cmp, t, Last(t).key).right.Nil?
    ensures InOrder(Remove(cmp, ClearLast(t), Last(t).key)) + [Last(t)] == InOrder(t)
  {
    hide TotalPreorder;
    var left := ClearLast(t);
    LastIsLargest(cmp, t);
    RemoveInOrder(cmp, left, Last(t).key);
    if cmp(Last(t).key, t.entry.key) == 0 {
      assert t.left.Nil?;
    } else {
      SortedParts(cmp, t);
      SpineExact(cmp, t.right);
    }
  }

  // Otherwise the predecessor is still there afterwards, with its flags cleared.
  lemma {:induction false} SpineStays<K(!new), V>(cmp: Cmp<K>, t: Tree<K, V>)
    requires TotalPreorder(cmp) && t.Node? && AA(t) && Sorted(cmp, InOrder(t))
    requires Find(cmp, t, Last(t).key).Node? && Find(cmp, t, Last(t).key).right.Node?
    ensures var r := InOrder(Remove(cmp, ClearLast(t), Last(t).key));
      |r| > 0 && SamePair(r[|r| - 1], Last(t))
  {
    hide TotalPreorder, Rebalance, Sorted, Remove, AA, SamePair;
    var left := ClearLast(t);
    LastIsLargest(cmp, t);
    RemoveInOrder(cmp, left, Last(t).key);
    if cmp(Last(t).key, t.entry.key) == 0 {
      ClearLastFacts(t.right);
      if t.left.Nil? {
        OnlyLast(cmp, t);
      } else {
        SameCleared(Last(t));
      }
    } else {
      SortedParts(cmp, t);
      assert AA(t.right) by {
        PartsBalanced(t);
      }
      SpineStays(cmp, t.right);
    }
  }

  lemma PartsBalanced<K, V>(t: Tree<K, V>)
    requires AA(t) && t.Node?
    ensures AA(t.left) && AA(t.right)
  {
  }

  lemma SameCleared<K, V>(e: Entry<K, V>)
    ensures SamePair(e.Cleared(), e) && SamePair(e, e)
  {
  }

  lemma OnlyLast<K(!new), V>(cmp: Cmp<K>, t: Tree<K, V>)
    requires TotalPreorder(cmp) && AA(t) && t.Node? && t.left.Nil? && t.right.Node?
      && cmp(Last(t).key, t.entry.key) == 0
    ensures var r := InOrder(Remove(cmp, ClearLast(t), Last(t).key));
      |r| > 0 && SamePair(r[|r| - 1], Last(t))
  {
    hide TotalPreorder, Rebalance;
    RemoveInOrder(cmp, ClearLast(t), Last(t).key);
    assert AA(t.right);
    assert t.right == Node(Nil, Last(t), 1, Nil);
    Reflexive(cmp, Last(t).key);
  }

  lemma {:induction false} PairTwice<K(!new), V>(cmp: Cmp<K>, t: Tree<K, V>, key: K)
    requires TotalPreorder(cmp) && AA(t) && Sorted(cmp, InOrder(t)) && Find(cmp, t, key).Node?
    requires !PredecessorInSight(cmp, Find(cmp, t, key))
    ensures !DistinctPairs(InOrder(Remove(cmp, t, key)))
  {
    hide TotalPreorder, Rebalance, Remove, Last, ClearLast, Size, Sorted, DistinctPairs, SamePair;
    assert AA(t.left) && AA(t.right);
    RemoveInOrder(cmp, t, key);
    SortedParts(cmp, t);
    var c := cmp(key, t.entry.key);
    var l, r, s := InOrder(t.left), InOrder(t.right), InOrder(Remove(cmp, t, key));
    if c < 0 {
      PairTwice(cmp, t.left, key);
      PairTwiceAt(InOrder(Remove(cmp, t.left, key)), s, 0);
    } else if c > 0 {
      PairTwice(cmp, t.right, key);
      PairTwiceAt(InOrder(Remove(cmp, t.right, key)), s, |l| + 1);
    } else {
      ClearLastFacts(t.left);
      FindsEqual(cmp, t.left, |l| - 1);
      SpineStays(cmp, t.left);
      PairAtSeam(InOrder(Remove(cmp, ClearLast(t.left), Last(t.left).key)), Last(t.left), r);
    }
  }

  lemma PairAtSeam<K(!new), V>(l: seq<Entry<K, V>>, e: Entry<K, V>, r: seq<Entry<K, V>>)
    requires |l| > 0 && SamePair(l[|l| - 1], e)
    ensures !DistinctPairs(l + [e] + r)
  {
    var s := l + [e] + r;
    assert SamePair(s[|l| - 1], s[|l|]);
  }

  lemma PairTwiceAt<K(!new), V>(part: seq<Entry<K, V>>, s: seq<Entry<K, V>>, at: nat)
    requires !DistinctPairs(part) && at + |part| <= |s| && s[at..at + |part|] == part
    ensures !DistinctPairs(s)
  {
    var i, j :| 0 <= i < j < |part| && SamePair(part[i], part[j]);
    assert s[at + i] == part[i] && s[at + j] == part[j];
    assert SamePair(s[at + i], s[at + j]);
  }

  lemma {:induction false} InSightExact<K(!new), V>(cmp: Cmp<K>, t: Tree<K, V>, key: K)
    requires TotalPreorder(cmp) && AA(t) && Sorted(cmp, InOrder(t)) && Find(cmp, t, key).Node?
    requires PredecessorInSight(cmp, Find(cmp, t, key))
    ensures InOrder(Remove(cmp, t, key)) == Without(InOrder(t), FindIndex(cmp, t, key))
  {
    hide TotalPreorder, Rebalance, Sorted, Size;
    RemoveInOrder(cmp, t, key);
    SortedParts(cmp, t);
    WithoutSplits(InOrder(t.left), t.entry, InOrder(t.right), FindIndex(cmp, t, key));
    var c := cmp(key, t.entry.key);
    if c < 0 {
      InSightExact(cmp, t.left, key);
    } else if c > 0 {
      InSightExact(cmp, t.right, key);
    } else if t.left.Node? {
      SpineExact(cmp, t.left);
    } else if t.right.Node? {
      assert AA(t.right.left) && AA(t.right.right);
      assert t.right == Node(Nil, First(t.right), 1, Nil);
      Reflexive(cmp, First(t.right).key);
    }
  }

  /** Removal takes out exactly the found entry if and only if its predecessor is in
      sight. When it is not, an entry above the predecessor is lost in its place and
      the predecessor's key and value are left in the tree twice. */
  lemma RemoveExactIff<K(!new), V>(cmp: Cmp<K>, t: Tree<K, V>, key: K)
    requires TotalPreorder(cmp) && AA(t) && Sorted(cmp, InOrder(t)) && DistinctPairs(InOrder(t))
    requires Find(cmp, t, key).Node?
    ensures InOrder(Remove(cmp, t, key)) == Without(InOrder(t), FindIndex(cmp, t, key))
       <==> PredecessorInSight(cmp, Find(cmp, t, key))
  {
    hide TotalPreorder;
    if PredecessorInSight(cmp, Find(cmp, t, key)) {
      InSightExact(cmp, t, key);
    } else {
      PairTwice(cmp, t, key);
      WithoutDistinct(InOrder(t), FindIndex(cmp, t, key));
    }
  }

  lemma WithoutDistinct<K(!new), V>(s: seq<Entry<K, V>>, i: nat)
    requires DistinctPairs(s) && i < |s|
    ensures DistinctPairs(Without(s, i))
  {
    var w := Without(s, i);
    forall x, y | 0 <= x < y < |w| ensures !SamePair(w[x], w[y]) {
      var x', y' := if x < i then x else x + 1, if y < i then y else y + 1;
      assert w[x] == s[x'] && w[y] == s[y'];
    }
  }

  // Removing the key 2 from this tree loses the entry (1, 10): the lookup for the
  // predecessor (1, 11) stops at it.
  function LossyTree(): Tree<int, int> {
    Node(Node(Nil, Entry(1, 10, 0), 1, Node(Nil, Entry(1, 11, 0), 1, Nil)), Entry(2, 20, 0), 2,
        Node(Nil, Entry(3, 30, 0), 1, Nil))
  }

  lemma LossyTreeReachable()
    ensures var cmp := (a: int, b: int) => a - b;
      TotalPreorder(cmp) && InsertAll(cmp, Nil,
          [Entry(1, 10, 0), Entry(2, 20, 0), Entry(3, 30, 0), Entry(1, 11, 0)]) == LossyTree()
  {
    var cmp := (a: int, b: int) => a - b;
    var a, b, c, d := Entry(1, 10, 0), Entry(2, 20, 0), Entry(3, 30, 0), Entry(1, 11, 0);
    var t1 := Insert(cmp, Nil, a);
    var t2 := Insert(cmp, t1, b);
    assert t2 == Node(Nil, a, 1, Node(Nil, b, 1, Nil));
    var t3 := Insert(cmp, t2, c);
    assert Insert(cmp, t2.right, c) == Node(Nil, b, 1, Node(Nil, c, 1, Nil));
    assert t3 == Node(t1, b, 2, Node(Nil, c, 1, Nil));
    assert Insert(cmp, t1, d) == LossyTree().left;
    assert [a, b, c, d][1..] == [b, c, d] && [b, c, d][1..] == [c, d] && [c, d][1..] == [d];
    assert InsertAll(cmp, t3, [d]) == LossyTree();
    assert InsertAll(cmp, t2, [c, d]) == LossyTree();
  }

  lemma RemoveLosesValue()
    ensures InOrder(LossyTree()) == [Entry(1, 10, 0), Entry(1, 11, 0), Entry(2, 20, 0), Entry(3, 30, 0)]
    ensures InOrder(Remove((a: int, b: int) => a - b, LossyTree(), 2)) ==
      [Entry(1, 11, 0), Entry(1, 11, 0), Entry(3, 30, 0)]
  {
    var cmp := (a: int, b: int) => a - b;
    assert Remove(cmp, LossyTree().left, 1) == Node(Nil, Entry(1, 11, 0), 1, Nil);
    RemoveInOrder(cmp, LossyTree(), 2);
  }

  // ---------- replacing insertion ----------

  ghost predicate SameShape<K, V>(t: Tree<K, V>, r: Tree<K, V>) {
    if t.Nil? then r.Nil?
    else r.Node? && t.level == r.level && SameShape(t.left, r.left) && SameShape(t.right, r.right)
  }

  // The same tree with the entry of the found node exchanged.
  function Overwrite<K, V>(cmp: Cmp<K>, t: Tree<K, V>, e: Entry<K, V>): Tree<K, V> {
    if t.Nil? then Nil
    else
      var c := cmp(e.key, t.entry.key);
      if c == 0 then t.(entry := e)
      else if c < 0 then t.(left := Overwrite(cmp, t.left, e))
      else t.(right := Overwrite(cmp, t.right, e))
  }

  lemma {:induction false} OverwriteShape<K(!new), V>(cmp: Cmp<K>, t: Tree<K, V>, e: Entry<K, V>)
    ensures SameShape(t, Overwrite(cmp, t, e))
    ensures Find(cmp, t, e.key).Node? ==>
      InOrder(Overwrite(cmp, t, e)) == InOrder(t)[FindIndex(cmp, t, e.key) := e]
  {
    if t.Node? {
      SelfSameShape(t.left);
      SelfSameShape(t.right);
      if Find(cmp, t, e.key).Node? {
        UpdateSplits(InOrder(t.left), t.entry, InOrder(t.right), FindIndex(cmp, t, e.key), e);
      }
      if cmp(e.key, t.entry.key) < 0 {
        OverwriteShape(cmp, t.left, e);
      } else if cmp(e.key, t.entry.key) > 0 {
        OverwriteShape(cmp, t.right, e);
      }
    }
  }

  lemma {:induction false} InsertIsOverwrite<K(!new), V>(cmp: Cmp<K>, t: Tree<K, V>, e: Entry<K, V>)
    requires AA(t) && Overwrites(cmp, t, e)
    ensures Insert(cmp, t, e) == Overwrite(cmp, t, e)
  {
    var c := cmp(e.key, t.entry.key);
    OverwriteShape(cmp, t, e);
    if c < 0 {
      InsertIsOverwrite(cmp, t.left, e);
      SameShapeKeeps(t, Overwrite(cmp, t, e));
    } else if c > 0 {
      InsertIsOverwrite(cmp, t.right, e);
      SameShapeKeeps(t, Overwrite(cmp, t, e));
    }
  }

  // Equal keys take the same way down the tree.
  lemma SameWay<K(!new)>(cmp: Cmp<K>, a: K, b: K, k: K)
    requires TotalPreorder(cmp) && cmp(a, b) == 0
    ensures cmp(a, k) < 0 <==> cmp(b, k) < 0
    ensures cmp(a, k) == 0 <==> cmp(b, k) == 0
  {
    hide TotalPreorder;
    Chain(cmp, a, b, k);
    Chain(cmp, b, a, k);
    Chain(cmp, k, a, b);
    Chain(cmp, k, b, a);
  }

  lemma {:induction false} FindsOverwritten<K(!new), V>(cmp: Cmp<K>, t: Tree<K, V>, e: Entry<K, V>, key: K)
    requires TotalPreorder(cmp) && Find(cmp, t, e.key).Node? && cmp(key, e.key) == 0
    ensures var r := Overwrite(cmp, t, e);
      && Find(cmp, r, key).Node? && Find(cmp, r, key).entry == e
      && FindIndex(cmp, r, key) == FindIndex(cmp, t, e.key)
  {
    hide TotalPreorder;
    var c := cmp(e.key, t.entry.key);
    SameWay(cmp, key, e.key, t.entry.key);
    if c < 0 {
      FindsOverwritten(cmp, t.left, e, key);
    } else if c > 0 {
      OverwriteShape(cmp, t.right, e);
      FindsOverwritten(cmp, t.right, e, key);
    }
  }

  /** Replacing an existing key keeps every node and level where it was and changes
      only the entry a lookup finds; a later lookup of any equal key returns it, even
      when other entries have that key. */
  lemma ReplaceOverwrites<K(!new), V>(cmp: Cmp<K>, t: Tree<K, V>, e: Entry<K, V>, key: K)
    requires TotalPreorder(cmp) && AA(t) && Overwrites(cmp, t, e) && cmp(key, e.key) == 0
    ensures var r := Insert(cmp, t, e);
      && SameShape(t, r)
      && InOrder(r) == InOrder(t)[FindIndex(cmp, t, e.key) := e]
      && Find(cmp, r, key).Node? && Find(cmp, r, key).entry == e
      && FindIndex(cmp, r, key) == FindIndex(cmp, t, e.key)
  {
    hide TotalPreorder;
    InsertIsOverwrite(cmp, t, e);
    OverwriteShape(cmp, t, e);
    FindsOverwritten(cmp, t, e, key);
  }

  lemma {:induction false} SelfSameShape<K(!new), V>(t: Tree<K, V>)
    ensures SameShape(t, t)
  {
    if t.Node? {
      SelfSameShape(t.left);
      SelfSameShape(t.right);
    }
  }

  // A tree shaped like a balanced one needs neither skew nor split.
  lemma SameShapeKeeps<K(!new), V>(t: Tree<K, V>, r: Tree<K, V>)
    requires AA(t) && t.Node? && SameShape(t, r)
    ensures Skew(r) == r && Split(r) == r
  {
    assert t.right.Node? ==> SameShape(t.right.right, r.right.right);
  }

  // ---------- whole runs ----------

  datatype Op<K, V> = Add(entry: Entry<K, V>) | Del(key: K)

  // The tree after a run of additions and removals, from an empty dictionary.
  function Run<K, V>(cmp: Cmp<K>, ops: seq<Op<K, V>>): Tree<K, V> {
    if ops == [] then Nil
    else
      var t := Run(cmp, ops[..|ops| - 1]);
      match ops[|ops| - 1]
      case Add(e) => Insert(cmp, t, e)
      case Del(k) => Remove(cmp, t, k)
  }

  lemma UpdatedSorted<K(!new), V>(cmp: Cmp<K>, s: seq<Entry<K, V>>, i: nat, e: Entry<K, V>)
    requires TotalPreorder(cmp) && Sorted(cmp, s) && i < |s| && cmp(e.key, s[i].key) == 0
    ensures Sorted(cmp, s[i := e])
    ensures DistinctKeys(cmp, s) ==> DistinctKeys(cmp, s[i := e])
  {
    hide TotalPreorder;
    forall j | 0 <= j < |s|
      ensures cmp(s[j].key, s[i].key) <= 0 ==> cmp(s[j].key, e.key) <= 0
      ensures cmp(s[i].key, s[j].key) <= 0 ==> cmp(e.key, s[j].key) <= 0
      ensures cmp(s[j].key, s[i].key) != 0 ==> cmp(s[j].key, e.key) != 0
    {
      Chain(cmp, s[i].key, e.key, s[i].key);
      Chain(cmp, e.key, s[i].key, s[i].key);
      Chain(cmp, s[j].key, s[i].key, e.key);
      Chain(cmp, e.key, s[i].key, s[j].key);
      Chain(cmp, s[j].key, e.key, s[i].key);
      Chain(cmp, s[i].key, e.key, s[j].key);
      Chain(cmp, s[j].key, s[i].key, s[j].key);
      Chain(cmp, s[j].key, e.key, s[j].key);
    }
    var r := s[i := e];
    forall x, y | 0 <= x < y < |r|
      ensures cmp(r[x].key, r[y].key) <= 0
      ensures DistinctKeys(cmp, s) ==> cmp(r[x].key, r[y].key) != 0
    {
      Chain(cmp, e.key, s[y].key, e.key);
      Chain(cmp, s[y].key, s[i].key, s[y].key);
      assert cmp(s[x].key, s[y].key) <= 0;
    }
  }

  lemma InsertKeepsSorted<K(!new), V>(cmp: Cmp<K>, t: Tree<K, V>, e: Entry<K, V>)
    requires TotalPreorder(cmp) && AA(t) && Sorted(cmp, InOrder(t))
    ensures Sorted(cmp, InOrder(Insert(cmp, t, e)))
  {
    hide TotalPreorder;
    if Overwrites(cmp, t, e) {
      Reflexive(cmp, e.key);
      ReplaceOverwrites(cmp, t, e, e.key);
      FindIffPresent(cmp, t, e.key);
      UpdatedSorted(cmp, InOrder(t), FindIndex(cmp, t, e.key), e);
    } else {
      InsertIsStable(cmp, t, e);
      StableInsertSorted(cmp, InOrder(t), e);
    }
  }

  /** Every dictionary reachable by additions and removals is a sorted AA tree. */
  lemma {:induction false} ReachableBalanced<K(!new), V>(cmp: Cmp<K>, ops: seq<Op<K, V>>)
    requires TotalPreorder(cmp)
    ensures AA(Run(cmp, ops)) && Sorted(cmp, InOrder(Run(cmp, ops)))
  {
    hide TotalPreorder;
    if ops != [] {
      var before := ops[..|ops| - 1];
      ReachableBalanced(cmp, before);
      var t := Run(cmp, before);
      match ops[|ops| - 1]
      case Add(e) =>
        InsertKeepsAA(cmp, t, e);
        InsertKeepsSorted(cmp, t, e);
      case Del(k) =>
        RemoveKeepsAA(cmp, t, k);
        RemoveKeepsSorted(cmp, t, k);
    }
  }

  /** A dictionary filled only by replacing additions never holds two equal keys. */
  lemma {:induction false} ReplaceOnlyDistinct<K(!new), V>(cmp: Cmp<K>, ops: seq<Op<K, V>>)
    requires TotalPreorder(cmp) && forall i :: 0 <= i < |ops| && ops[i].Add? ==> ops[i].entry.Replaces()
    ensures DistinctKeys(cmp, InOrder(Run(cmp, ops)))
  {
    hide TotalPreorder;
    if ops != [] {
      var before := ops[..|ops| - 1];
      ReachableBalanced(cmp, before);
      ReplaceOnlyDistinct(cmp, before);
      var t := Run(cmp, before);
      match ops[|ops| - 1]
      case Add(e) =>
        FindIffPresent(cmp, t, e.key);
        if Overwrites(cmp, t, e) {
          Reflexive(cmp, e.key);
          ReplaceOverwrites(cmp, t, e, e.key);
          UpdatedSorted(cmp, InOrder(t), FindIndex(cmp, t, e.key), e);
        } else {
          InsertIsStable(cmp, t, e);
          NewKeyDistinct(cmp, InOrder(t), e);
        }
      case Del(k) =>
        if Find(cmp, t, k).Nil? {
          RemoveAbsent(cmp, t, k);
        } else {
          RemoveExact(cmp, t, k);
          WithoutDistinctKeys(cmp, InOrder(t), FindIndex(cmp, t, k));
        }
    }
  }

  lemma NewKeyDistinct<K(!new), V>(cmp: Cmp<K>, s: seq<Entry<K, V>>, e: Entry<K, V>)
    requires TotalPreorder(cmp) && DistinctKeys(cmp, s) && !HasKey(cmp, s, e.key)
    ensures DistinctKeys(cmp, StableInsert(cmp, s, e))
  {
    hide TotalPreorder;
    var k := StableInsertAt(cmp, s, e);
    var r := StableInsert(cmp, s, e);
    forall i, j | 0 <= i < j < |r| ensures cmp(r[i].key, r[j].key) != 0 {
      var x, y := if i < k then i else i - 1, if j < k then j else j - 1;
      if i == k {
        assert r[j] == s[y];
      } else if j == k {
        assert r[i] == s[x];
        Chain(cmp, e.key, s[x].key, e.key);
      } else {
        assert r[i] == s[x] && r[j] == s[y];
      }
    }
  }

  lemma WithoutDistinctKeys<K(!new), V>(cmp: Cmp<K>, s: seq<Entry<K, V>>, i: nat)
    requires DistinctKeys(cmp, s) && i < |s|
    ensures DistinctKeys(cmp, Without(s, i))
  {
    var w := Without(s, i);
    forall x, y | 0 <= x < y < |w| ensures cmp(w[x].key, w[y].key) != 0 {
      var x', y' := if x < i then x else x + 1, if y < i then y else y + 1;
      assert w[x] == s[x'] && w[y] == s[y'];
    }
  }

  // ---------- filling one dictionary from another ----------

  // The additions a traversal of a dictionary makes, one after another.
  function InsertAll<K, V>(cmp: Cmp<K>, t: Tree<K, V>, s: seq<Entry<K, V>>): Tree<K, V>
    decreases |s|
  {
    if s == [] then t else InsertAll(cmp, Insert(cmp, t, s[0]), s[1..])
  }

  function StableSort<K, V>(cmp: Cmp<K>, sorted: seq<Entry<K, V>>, s: seq<Entry<K, V>>): seq<Entry<K, V>>
    decreases |s|
  {
    if s == [] then sorted else StableSort(cmp, StableInsert(cmp, sorted, s[0]), s[1..])
  }

  lemma {:induction false} InsertAllJoins<K(!new), V>(cmp: Cmp<K>, t: Tree<K, V>, a: seq<Entry<K, V>>,
      b: seq<Entry<K, V>>)
    ensures InsertAll(cmp, t, a + b) == InsertAll(cmp, InsertAll(cmp, t, a), b)
    decreases |a|
  {
    if a == [] {
      assert a + b == b;
    } else {
      assert (a + b)[1..] == a[1..] + b;
      InsertAllJoins(cmp, Insert(cmp, t, a[0]), a[1..], b);
    }
  }

  lemma InsertAllCons<K(!new), V>(cmp: Cmp<K>, t: Tree<K, V>, e: Entry<K, V>, s: seq<Entry<K, V>>)
    ensures InsertAll(cmp, t, [e] + s) == InsertAll(cmp, Insert(cmp, t, e), s)
  {
    assert ([e] + s)[1..] == s;
  }

  lemma InsertAllNone<K(!new), V>(cmp: Cmp<K>, t: Tree<K, V>)
    ensures InsertAll(cmp, t, []) == t
  {
  }

  ghost predicate NoReplace<K, V>(s: seq<Entry<K, V>>) {
    forall i :: 0 <= i < |s| ==> !s[i].Replaces()
  }

  /** Filling a dictionary without replacement is a stable insertion sort. */
  lemma {:induction false} InsertAllIsStableSort<K(!new), V>(cmp: Cmp<K>, t: Tree<K, V>, s: seq<Entry<K, V>>)
    requires TotalPreorder(cmp) && AA(t) && Sorted(cmp, InOrder(t)) && NoReplace(s)
    ensures InOrder(InsertAll(cmp, t, s)) == StableSort(cmp, InOrder(t), s)
    ensures AA(InsertAll(cmp, t, s)) && Sorted(cmp, InOrder(InsertAll(cmp, t, s)))
    decreases |s|
  {
    hide TotalPreorder;
    if s != [] {
      InsertIsStable(cmp, t, s[0]);
      InsertKeepsAA(cmp, t, s[0]);
      InsertKeepsSorted(cmp, t, s[0]);
      InsertAllIsStableSort(cmp, Insert(cmp, t, s[0]), s[1..]);
    }
  }

  lemma {:induction false} StableSortAdds<K(!new), V>(cmp: Cmp<K>, sorted: seq<Entry<K, V>>, s: seq<Entry<K, V>>)
    ensures multiset(StableSort(cmp, sorted, s)) == multiset(sorted) + multiset(s)
    decreases |s|
  {
    if s != [] {
      StableInsertAdds(cmp, sorted, s[0]);
      StableSortAdds(cmp, StableInsert(cmp, sorted, s[0]), s[1..]);
      assert s == [s[0]] + s[1..];
    }
  }

  lemma NothingSorted<K(!new), V>(cmp: Cmp<K>)
    ensures Sorted<K, V>(cmp, [])
  {
  }

  lemma {:induction false} StableSortOfSorted<K(!new), V>(cmp: Cmp<K>, sorted: seq<Entry<K, V>>, s: seq<Entry<K, V>>)
    requires TotalPreorder(cmp) && Sorted(cmp, sorted + s)
    ensures StableSort(cmp, sorted, s) == sorted + s
    decreases |s|
  {
    hide TotalPreorder;
    if s != [] {
      var k := StableInsertAt(cmp, sorted, s[0]);
      if k < |sorted| {
        assert (sorted + s)[k] == sorted[k] && (sorted + s)[|sorted|] == s[0];
        Chain(cmp, sorted[k].key, s[0].key, sorted[k].key);
      }
      assert StableInsert(cmp, sorted, s[0]) == sorted + [s[0]];
      assert sorted + [s[0]] + s[1..] == sorted + s;
      StableSortOfSorted(cmp, sorted + [s[0]], s[1..]);
    }
  }

  lemma TwoSwap<K(!new), V>(cmp: Cmp<K>, a: Entry<K, V>, b: Entry<K, V>)
    requires TotalPreorder(cmp) && cmp(b.key, a.key) < 0 && !a.Replaces() && !b.Replaces()
    ensures InOrder(InsertAll(cmp, Nil, [a, b])) == [b, a]
  {
    hide TotalPreorder;
    InsertAllIsStableSort(cmp, Nil, [a, b]);
    assert [a, b][1..] == [b] && [b][1..] == [];
    assert StableInsert(cmp, [], a) == [a] && StableInsert(cmp, [a], b) == [b] + [a] == [b, a];
    assert StableSort(cmp, [a], [b]) == StableSort(cmp, [b, a], []) == [b, a];
  }

  // An empty dictionary filled without replacement holds what was added.
  lemma InsertAllAdds<K(!new), V>(cmp: Cmp<K>, s: seq<Entry<K, V>>)
    requires TotalPreorder(cmp) && NoReplace(s)
    ensures multiset(InOrder(InsertAll(cmp, Nil, s))) == multiset(s)
  {
    hide TotalPreorder;
    InsertAllIsStableSort(cmp, Nil, s);
    StableSortAdds(cmp, [], s);
  }

  /** Copying the entries of one dictionary into an empty one keeps their order if
      and only if that order is sorted for the comparison of the new dictionary. */
  lemma CopyKeepsOrderIff<K(!new), V>(cmp: Cmp<K>, s: seq<Entry<K, V>>)
    requires TotalPreorder(cmp) && NoReplace(s)
    ensures InOrder(InsertAll(cmp, Nil, s)) == s <==> Sorted(cmp, s)
  {
    hide TotalPreorder;
    InsertAllIsStableSort(cmp, Nil, s);
    if Sorted(cmp, s) {
      assert [] + s == s;
      StableSortOfSorted(cmp, [], s);
    }
  }
}
